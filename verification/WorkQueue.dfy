/** The linked work queue. Each operation runs while its caller holds the queue's mutex. */
module WorkQueue {

  class Node<T> {
    var value: T
    var next: Node?<T>
    var prev: Node?<T>

    constructor (value: T)
      ensures this.value == value && next == null && prev == null
    {
      this.value, next, prev := value, null, null;
    }
  }

  /** A list between two end nodes, whose values are never read. Only the links forward and the
      link from the tail back are kept right: a new node's own link back points to itself. */
  class Queue<T> {
    const head: Node<T>
    const tail: Node<T>
    var size: nat
    /** The nodes in the queue, in order. */
    ghost var nodes: seq<Node<T>>

    ghost predicate Valid()
      reads this, head, tail, nodes
    {
      && head != tail && size == |nodes|
      && (forall i :: 0 <= i < |nodes| ==> nodes[i] != head && nodes[i] != tail)
      && (forall i, j :: 0 <= i < j < |nodes| ==> nodes[i] != nodes[j])
      && head.next == (if nodes == [] then tail else nodes[0])
      && (forall i :: 0 <= i < |nodes| ==> nodes[i].next == After(nodes, i))
      && tail.prev == (if nodes == [] then head else nodes[|nodes| - 1])
    }

    ghost function After(nodes: seq<Node<T>>, i: nat): Node<T>
    {
      if i + 1 < |nodes| then nodes[i + 1] else tail
    }

    ghost function Contents(): seq<T>
      reads this, nodes
    {
      seq(|nodes|, i requires 0 <= i < |nodes| reads this, nodes => nodes[i].value)
    }

    constructor (unused: T)
      ensures Valid() && Contents() == [] && fresh(head) && fresh(tail)
    {
      head := new Node(unused);
      tail := new Node(unused);
      size, nodes := 0, [];
      new;
      head.next := tail;
      tail.prev := head;
    }

    method Enqueue(value: T)
      requires Valid()
      modifies this, head, tail, nodes
      ensures Valid() && Contents() == old(Contents()) + [value]
      ensures |nodes| == |old(nodes)| + 1 && nodes[..|old(nodes)|] == old(nodes)
      ensures var node := nodes[|old(nodes)|]; fresh(node) && node.prev == node
    {
      ghost var was := Contents();
      var node := new Node(value);
      tail.prev.next := node;
      tail.prev := node;
      node.prev := tail.prev;
      node.next := tail;
      size := size + 1;
      nodes := nodes + [node];
      assert Contents()[..|was|] == was;
    }

    /** The caller has waited until the queue is not empty. */
    method Dequeue() returns (value: T)
      requires Valid() && size > 0
      modifies this, head, tail, nodes
      ensures Valid() && [value] + Contents() == old(Contents())
      ensures nodes == old(nodes)[1..]
    {
      ghost var was := nodes;
      value := head.next.value;
      var node := head.next;
      assert node == nodes[0];
      node.next.prev := head;
      head.next := head.next.next;
      size := size - 1;
      nodes := nodes[1..];
      assert forall k :: 0 < k < |was| ==> was[k].next == After(was, k);
    }
  }
}
