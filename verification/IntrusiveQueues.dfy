/** A singly linked queue whose links live in the queued nodes themselves. */
module IntrusiveQueues {
  import opened Common

  class Node<T> {
    var value: T
    var next: Node?<T>

    constructor (value: T)
      ensures this.value == value && next == null
    {
      this.value, next := value, null;
    }
  }

  lemma CutNoDuplicates<T>(s: seq<Node<T>>, k: nat)
    requires k < |s| && NoDuplicates(s)
    ensures NoDuplicates(s[..k] + s[k + 1..])
  {
  }

  /** A node of a sequence without repetition, as seen from another position. */
  lemma OthersDiffer<T>(s: seq<Node<T>>, k: nat)
    requires k < |s| && NoDuplicates(s)
    ensures forall i | 0 <= i < |s| && i != k :: s[i] != s[k]
  {
  }

  /** Entry k of a sequence, or null past its end. */
  function EntryAt<T>(s: seq<Node<T>>, k: nat): Node?<T> {
    if k < |s| then s[k] else null
  }

  class IntrusiveQueue<T> {
    var head: Node?<T>
    var tail: Node?<T>
    ghost var nodes: seq<Node<T>>

    ghost function Nodes(): set<Node<T>>
      reads this
    {
      set n | n in nodes
    }

    /** The links spell out the node sequence: no node twice, the tail last. */
    ghost predicate Valid()
      reads this, Nodes()
    {
      && NoDuplicates(nodes)
      && head == EntryAt(nodes, 0) && tail == (if nodes == [] then null else nodes[|nodes| - 1])
      && (forall i | 0 <= i < |nodes| :: nodes[i].next == EntryAt(nodes, i + 1))
    }

    /** What the nodes carry, in queue order. */
    ghost function Values(): (s: seq<T>)
      reads this, Nodes()
      ensures |s| == |nodes| && forall i | 0 <= i < |s| :: s[i] == nodes[i].value
    {
      seq(|nodes|, i requires 0 <= i < |nodes| reads this, Nodes() => nodes[i].value)
    }

    constructor ()
      ensures Valid() && nodes == []
    {
      head, tail, nodes := null, null, [];
    }

    method IsEmpty() returns (b: bool)
      requires Valid()
      ensures b <==> nodes == []
    {
      b := head == null;
    }

    method Head() returns (node: Node?<T>)
      requires Valid()
      ensures node == EntryAt(nodes, 0)
    {
      node := head;
    }

    method Next(node: Node<T>, ghost k: nat) returns (next: Node?<T>)
      requires Valid() && k < |nodes| && node == nodes[k]
      ensures next == EntryAt(nodes, k + 1)
    {
      assert nodes[k].next == EntryAt(nodes, k + 1);
      next := node.next;
    }

    method PushBack(node: Node?<T>)
      requires Valid() && (node != null ==> node !in nodes)
      modifies this, Nodes()`next, (if node == null then {} else {node})`next
      ensures Valid() && nodes == if node == null then old(nodes) else old(nodes) + [node]
    {
      if node == null {
        return;
      }
      node.next := null;
      if tail == null {
        head, tail := node, node;
      } else {
        tail.next := node;
        tail := node;
      }
      nodes := nodes + [node];
    }

    /** Allocate a node for a value and queue it. */
    method Append(value: T) returns (node: Node<T>)
      requires Valid()
      modifies this, Nodes()`next
      ensures Valid() && fresh(node) && nodes == old(nodes) + [node] && node.value == value
      ensures Values() == old(Values()) + [value]
    {
      node := new Node(value);
      PushBack(node);
    }

    method PopFront() returns (node: Node?<T>)
      requires Valid()
      modifies this, Nodes()`next
      ensures Valid()
      ensures old(nodes) == [] ==> node == null && nodes == []
      ensures old(nodes) != [] ==> node == old(nodes)[0] && node.next == null && nodes == old(nodes)[1..]
    {
      if head == null {
        return null;
      }
      node := head;
      assert nodes[0].next == EntryAt(nodes, 1);
      head := node.next;
      if head == null {
        tail := null;
      }
      node.next := null;
      nodes := nodes[1..];
    }

    method Remove(node: Node?<T>) returns (found: bool)
      requires Valid()
      modifies this, Nodes()`next
      ensures Valid()
      ensures found <==> node != null && node in old(nodes)
      ensures nodes == if node == null then old(nodes) else Without<Node<T>>(old(nodes), node)
      ensures found ==> node.next == null
    {
      hide Without, NoDuplicates, IntrusiveQueue.Valid;
      NodesOnce();
      HeadIsFirst();
      if node == null || head == null {
        return false;
      }
      if head == node {
        WithoutAt(nodes, 0);
        var _ := PopFront();
        return true;
      }
      ghost var k;
      var previous;
      previous, k := FindPrevious(node);
      if previous == null {
        return false;
      }
      WithoutAt(nodes, k + 1);
      UnlinkAfter(previous, node, k);
      return true;
    }

    lemma HeadIsFirst()
      requires Valid()
      ensures head == EntryAt(nodes, 0)
    {
    }

    /** Walk to the node whose successor is the given one. */
    method FindPrevious(node: Node<T>) returns (previous: Node?<T>, ghost k: nat)
      requires Valid() && head != null && head != node
      ensures previous == null ==> node !in nodes
      ensures previous != null ==>
        k + 1 < |nodes| && previous == nodes[k] && nodes[k + 1] == node
    {
      previous := head;
      k := 0;
      while previous != null && previous.next != node
        invariant 0 <= k <= |nodes|
        invariant previous == EntryAt(nodes, k)
        invariant node !in nodes[..k]
        invariant k < |nodes| ==> nodes[k] != node
        decreases |nodes| - k
      {
        assert nodes[k].next == EntryAt(nodes, k + 1);
        previous := previous.next;
        k := k + 1;
      }
      if previous != null {
        assert nodes[k].next == EntryAt(nodes, k + 1);
      }
    }

    /** Remove the node at a known position. */
    method RemoveEntry(node: Node<T>, ghost k: nat) returns (next: Node?<T>)
      requires Valid() && k < |nodes| && nodes[k] == node
      modifies this, Nodes()`next
      ensures Valid() && nodes == old(nodes)[..k] + old(nodes)[k + 1..]
      ensures Values() == old(Values())[..k] + old(Values())[k + 1..]
      ensures next == EntryAt(old(nodes), k + 1)
    {
      hide IntrusiveQueue.Valid, IntrusiveQueue.Values, NoDuplicates, Without;
      NodesOnce();
      WithoutAt(nodes, k);
      next := Next(node, k);
      ghost var s, vs := nodes, Values();
      var _ := Remove(node);
      ghost var rest := vs[..k] + vs[k + 1..];
      forall i | 0 <= i < |nodes|
        ensures Values()[i] == rest[i]
      {
        assert nodes[i] == if i < k then s[i] else s[i + 1];
      }
      assert Values() == rest;
    }

    lemma NodesOnce()
      requires Valid()
      ensures NoDuplicates(nodes)
    {
    }

    /** Take the node after previous out of the chain. */
    method UnlinkAfter(previous: Node<T>, node: Node<T>, ghost k: nat)
      requires Valid() && k + 1 < |nodes| && previous == nodes[k] && node == nodes[k + 1]
      modifies this, Nodes()`next
      ensures Valid() && node.next == null
      ensures nodes == old(nodes)[..k + 1] + old(nodes)[k + 2..]
    {
      hide NoDuplicates;
      ghost var s := nodes;
      OthersDiffer(s, k);
      OthersDiffer(s, k + 1);
      CutNoDuplicates(s, k + 1);
      assert s[k + 1].next == EntryAt(s, k + 2);
      previous.next := node.next;
      if tail == node {
        tail := previous;
      }
      node.next := null;
      nodes := s[..k + 1] + s[k + 2..];
      forall i | 0 <= i < |nodes|
        ensures nodes[i].next == EntryAt(nodes, i + 1)
      {
        assert nodes[i] == if i <= k then s[i] else s[i + 1];
        var n := nodes[i];
        assert i != k ==> n.next == old(n.next);
      }
    }

    /** The first node whose key is the one asked for, at position k; null if there is none. */
    method FindFirst<K(==)>(key: T -> K, value: K) returns (node: Node?<T>, ghost k: nat)
      requires Valid()
      ensures node == null <==> forall v | v in Values() :: key(v) != value
      ensures k <= |nodes| && node == EntryAt(nodes, k)
      ensures forall i | 0 <= i < k :: key(Values()[i]) != value
      ensures k < |nodes| ==> key(Values()[k]) == value
    {
      node := head;
      k := 0;
      while node != null
        invariant k <= |nodes| && node == EntryAt(nodes, k)
        invariant forall i | 0 <= i < k :: key(Values()[i]) != value
        decreases |nodes| - k
      {
        assert nodes[k].value == Values()[k] && nodes[k].next == EntryAt(nodes, k + 1);
        if key(node.value) == value {
          return;
        }
        node := node.next;
        k := k + 1;
      }
    }

    method RotateFrontToBack()
      requires Valid()
      modifies this, Nodes()`next
      ensures Valid()
      ensures nodes == if old(nodes) == [] then [] else old(nodes)[1..] + [old(nodes)[0]]
    {
      if head == null || head == tail {
        return;
      }
      var oldHead := PopFront();
      PushBack(oldHead);
    }
  }
}
