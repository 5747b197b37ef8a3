/** The intrusive circular doubly linked list (lib/ebl/linked_list.h).  A list stores only its
    first node; the links live in the nodes. */
module LinkedList {

  class Node {
    var next: Node?
    var prev: Node?

    constructor ()
      ensures next == null && prev == null
    {
      next, prev := null, null;
    }
  }

  predicate Distinct(s: seq<Node>) {
    forall i, j :: 0 <= i < j < |s| ==> s[i] != s[j]
  }

  predicate Apart(a: seq<Node>, b: seq<Node>) {
    (forall x :: x in a ==> x !in b) && (forall x :: x in b ==> x !in a)
  }

  predicate Linked(a: Node, b: Node)
    reads a, b
  {
    a.next == b && b.prev == a
  }

  /** The nodes, in order, are linked into one circle both ways. */
  predicate Circle(nodes: seq<Node>)
    reads nodes
  {
    && Distinct(nodes)
    && (nodes != [] ==> Linked(nodes[|nodes| - 1], nodes[0]))
    && forall i :: 0 < i < |nodes| ==> Linked(nodes[i - 1], nodes[i])
  }

  function Remove<T>(s: seq<T>, i: nat): seq<T>
    requires i < |s|
  {
    s[..i] + s[i + 1..]
  }

  lemma RemoveFirst<T>(s: seq<T>)
    requires s != []
    ensures Remove(s, 0) == s[1..]
  {
  }

  lemma RemoveLast<T>(s: seq<T>)
    requires s != []
    ensures Remove(s, |s| - 1) == s[..|s| - 1]
  {
  }

  function Insert<T>(s: seq<T>, i: nat, x: T): seq<T>
    requires i <= |s|
  {
    s[..i] + [x] + s[i..]
  }

  class IntrusiveList {
    var root: Node?
    ghost var nodes: seq<Node>

    ghost predicate Valid()
      reads this, nodes
    {
      root == (if nodes == [] then null else nodes[0]) && Circle(nodes)
    }

    constructor ()
      ensures Valid() && nodes == []
    {
      root, nodes := null, [];
    }

    /** Assignment of an empty list: the nodes are let go of, links and all. */
    method Reset()
      modifies this
      ensures Valid() && nodes == []
    {
      root, nodes := null, [];
    }

    method Empty() returns (empty: bool)
      requires Valid()
      ensures empty <==> nodes == []
    {
      empty := root == null;
    }

    method First() returns (node: Node?)
      requires Valid()
      ensures node == if nodes == [] then null else nodes[0]
    {
      node := root;
    }

    method Last() returns (node: Node?)
      requires Valid()
      ensures node == if nodes == [] then null else nodes[|nodes| - 1]
    {
      if root == null {
        return null;
      }
      node := root.prev;
    }

    /** insert_before_unsafe at place i of the circle; the first place is also the one behind
        the last. */
    method LinkBefore(ghost i: nat, node: Node, newNode: Node)
      requires Circle(nodes) && i < |nodes| && nodes[i] == node && newNode !in nodes
      modifies nodes, newNode
      ensures Circle(Insert(nodes, i, newNode))
      ensures i == 0 ==> Circle(nodes + [newNode])
    {
      ghost var before := if i == 0 then nodes[|nodes| - 1] else nodes[i - 1];
      assert Linked(before, node);
      node.prev.next := newNode;
      newNode.prev := node.prev;
      newNode.next := node;
      node.prev := newNode;
      assert Linked(before, newNode) && Linked(newNode, node);
      forall k | 0 < k < |nodes| && k != i
        ensures Linked(nodes[k - 1], nodes[k])
      {
        assert old(Linked(nodes[k - 1], nodes[k]));
        assert nodes[k - 1] != before && nodes[k] != node;
      }
      if i != 0 {
        assert old(Linked(nodes[|nodes| - 1], nodes[0]));
        assert nodes[0] != node && nodes[|nodes| - 1] != before;
      }
      InsertedCircle(nodes, i, newNode);
    }

    method PushFront(node: Node)
      requires Valid() && node !in nodes
      modifies this, nodes, node
      ensures Valid() && nodes == [node] + old(nodes)
    {
      if root == null {
        root := node;
        node.prev := node;
        node.next := node;
      } else {
        LinkBefore(0, root, node);
        root := node;
      }
      nodes := [node] + nodes;
      assert old(nodes) != [] ==> nodes == Insert(old(nodes), 0, node);
    }

    method PushBack(node: Node)
      requires Valid() && node !in nodes
      modifies this, nodes, node
      ensures Valid() && nodes == old(nodes) + [node]
    {
      if root == null {
        root := node;
        node.prev := node;
        node.next := node;
      } else {
        LinkBefore(0, root, node);
      }
      nodes := nodes + [node];
    }

    /** insert_before(inspt, node).  A null inspt inserts nothing, except that on an empty list
        the unlinked node becomes the root and the list is broken. */
    method InsertBefore(inspt: Node?, node: Node)
      requires Valid() && (inspt == null || inspt in nodes) && (node !in nodes || node == inspt)
      modifies this, nodes, node
      ensures Valid() <==> inspt != null || old(root) != null
      ensures inspt != null && inspt != node ==>
                exists i :: 0 <= i < |old(nodes)| && old(nodes)[i] == inspt && nodes == Insert(old(nodes), i, node)
      ensures inspt == null || inspt == node ==>
                nodes == old(nodes) && node.next == old(node.next) && node.prev == old(node.prev)
      ensures inspt == null && old(root) == null ==> root == node
    {
      if inspt != null && inspt != node {
        ghost var i :| 0 <= i < |nodes| && nodes[i] == inspt;
        LinkBefore(i, inspt, node);
        nodes := Insert(nodes, i, node);
        assert old(nodes)[i] == inspt && nodes == Insert(old(nodes), i, node);
        assert i != 0 ==> old(nodes)[0] != inspt;
      }
      if inspt == root {
        root := node;
      }
    }

    /** The link updates of remove_unsafe, at place i of the circle. */
    method Unlink(ghost i: nat, node: Node)
      requires Circle(nodes) && i < |nodes| && nodes[i] == node
      modifies this`nodes, nodes
      ensures nodes == Remove(old(nodes), i)
      ensures |old(nodes)| >= 2 ==> Circle(nodes)
      ensures node.next == null && node.prev == null
    {
      ghost var n := |nodes|;
      ghost var before := if i == 0 then nodes[n - 1] else nodes[i - 1];
      ghost var after := if i == n - 1 then nodes[0] else nodes[i + 1];
      assert Linked(before, node) && Linked(node, after);
      node.prev.next := node.next;
      node.next.prev := node.prev;
      node.prev := null;
      node.next := null;
      if n >= 2 {
        assert Linked(before, after);
        forall k | 0 < k < n && k != i && k - 1 != i
          ensures Linked(nodes[k - 1], nodes[k])
        {
          assert old(Linked(nodes[k - 1], nodes[k]));
          assert nodes[k - 1] != before && nodes[k] != after;
        }
        if 0 < i < n - 1 {
          assert old(Linked(nodes[n - 1], nodes[0]));
          assert nodes[0] != after && nodes[n - 1] != before;
        }
        RemovedCircle(nodes, i);
      }
      nodes := Remove(nodes, i);
    }

    /** remove(node).  The node leaves the list and its links are cleared, but removing the only
        node leaves it behind as the root: the list is valid afterwards exactly when another
        node was in it. */
    method RemoveNode(node: Node) returns (removed: Node)
      requires Valid() && node in nodes
      modifies this, nodes
      ensures removed == node && node.next == null && node.prev == null
      ensures exists i :: 0 <= i < |old(nodes)| && old(nodes)[i] == node && nodes == Remove(old(nodes), i)
      ensures Valid() <==> |old(nodes)| >= 2
      ensures |old(nodes)| == 1 ==> root == node && nodes == []
    {
      ghost var i :| 0 <= i < |nodes| && nodes[i] == node;
      assert i == |nodes| - 1 || Linked(nodes[i], nodes[i + 1]);
      if node == root {
        root := root.next;
      }
      Unlink(i, node);
      removed := node;
    }

    method PopFront() returns (node: Node?)
      requires Valid()
      modifies this, nodes
      ensures Valid()
      ensures old(nodes) == [] ==> node == null && nodes == []
      ensures old(nodes) != [] ==> node == old(nodes)[0] && nodes == old(nodes)[1..]
    {
      node := root;
      if root == null {
        return null;
      }
      assert root.next == nodes[if |nodes| > 1 then 1 else 0] by {
        assert |nodes| > 1 ==> Linked(nodes[0], nodes[1]);
        assert Linked(nodes[|nodes| - 1], nodes[0]);
      }
      if root.next == root {
        assert |nodes| == 1;
        root := null;
        nodes := [];
        return;
      }
      RemoveFirst(nodes);
      root := root.next;
      Unlink(0, node);
    }

    /** pop_back reads the root's links before its emptiness check, so it needs a node. */
    method PopBack() returns (node: Node?)
      requires Valid() && nodes != []
      modifies this, nodes
      ensures Valid()
      ensures node == old(nodes)[|old(nodes)| - 1] && nodes == old(nodes)[..|old(nodes)| - 1]
    {
      ghost var last := |nodes| - 1;
      node := root.prev;
      if root == node {
        root := null;
        nodes := [];
      } else {
        RemoveLast(nodes);
        Unlink(last, node);
      }
    }

    // ----- iteration

    method Begin() returns (it: Iterator)
      ensures it == Iterator(root, false)
    {
      it := Iterator(root, false);
    }

    method End() returns (it: Iterator)
      ensures it == Iterator(root, root != null)
    {
      it := Iterator(root, root != null);
    }

    /** Where the iterator stands after k steps. */
    ghost predicate Stands(it: Iterator, k: nat)
      reads this
    {
      k <= |nodes| && it == Iterator(if nodes == [] then null else nodes[if k == |nodes| then 0 else k], k > 0)
    }

    /** A loop over the list: it ends, having seen each node once, in order. */
    method Traverse() returns (visited: seq<Node>)
      requires Valid()
      ensures visited == nodes
    {
      visited := [];
      var it := Begin();
      var end := End();
      while it != end
        invariant |visited| <= |nodes| && visited == nodes[..|visited|]
        invariant Stands(it, |visited|)
        decreases |nodes| - |visited|
      {
        assert |visited| < |nodes|;
        ghost var k := |visited|;
        assert k + 1 < |nodes| ==> Linked(nodes[k], nodes[k + 1]);
        visited := visited + [it.node];
        it := Iterator(it.node.next, true);
      }
    }

    method Size() returns (size: nat)
      requires Valid()
      ensures size == |nodes|
    {
      size := 0;
      var it := Begin();
      var end := End();
      while it != end
        invariant size <= |nodes| && Stands(it, size)
        decreases |nodes| - size
      {
        assert size + 1 < |nodes| ==> Linked(nodes[size], nodes[size + 1]);
        it := Iterator(it.node.next, true);
        size := size + 1;
      }
    }
  }

  /** An iterator compares equal to another at the same node with the same flag, which tells
      the end of a list from its beginning. */
  datatype Iterator = Iterator(node: Node?, flag: bool)

  lemma InsertedCircle(nodes: seq<Node>, i: nat, x: Node)
    requires i < |nodes| && x !in nodes && Distinct(nodes)
    requires forall k :: 0 < k < |nodes| && k != i ==> Linked(nodes[k - 1], nodes[k])
    requires i != 0 ==> Linked(nodes[|nodes| - 1], nodes[0])
    requires Linked(x, nodes[i]) && Linked(nodes[if i == 0 then |nodes| - 1 else i - 1], x)
    ensures Circle(Insert(nodes, i, x))
    ensures i == 0 ==> Circle(nodes + [x])
  {
    var s := Insert(nodes, i, x);
    forall k | 0 < k < |s|
      ensures Linked(s[k - 1], s[k])
    {
    }
  }

  lemma RemovedCircle(nodes: seq<Node>, i: nat)
    requires i < |nodes| && |nodes| >= 2 && Distinct(nodes)
    requires forall k :: 0 < k < |nodes| && k != i && k - 1 != i ==> Linked(nodes[k - 1], nodes[k])
    requires 0 < i < |nodes| - 1 ==> Linked(nodes[|nodes| - 1], nodes[0])
    requires Linked(nodes[if i == 0 then |nodes| - 1 else i - 1], nodes[if i == |nodes| - 1 then 0 else i + 1])
    ensures Circle(Remove(nodes, i))
  {
    var s := Remove(nodes, i);
    forall k | 0 < k < |s|
      ensures Linked(s[k - 1], s[k])
    {
    }
  }

  /** The links and the first node determine the whole sequence. */
  lemma CircleIsUnique(s: seq<Node>, t: seq<Node>)
    requires Circle(s) && Circle(t) && s != [] && t != [] && s[0] == t[0]
    ensures s == t
  {
    assert Linked(s[|s| - 1], s[0]) && Linked(t[|t| - 1], t[0]);
    assert |s| < |t| ==> Linked(t[|s| - 1], t[|s|]);
    assert |t| < |s| ==> Linked(s[|t| - 1], s[|t|]);
    SamePrefix(s, t, if |s| < |t| then |s| else |t|);
  }

  lemma {:induction false} SamePrefix(s: seq<Node>, t: seq<Node>, m: nat)
    requires Circle(s) && Circle(t) && s != [] && t != [] && s[0] == t[0] && 0 < m <= |s| && m <= |t|
    ensures forall k :: 0 <= k < m ==> s[k] == t[k]
  {
    if m > 1 {
      SamePrefix(s, t, m - 1);
      assert Linked(s[m - 2], s[m - 1]) && Linked(t[m - 2], t[m - 1]);
    }
  }
}
