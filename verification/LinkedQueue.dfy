/**
 The memory of queue.c: a singly linked chain with head, tail and size, updated inside the
 mutex-protected sections. Contents() is the sequence the step machine works on.
 */
module LinkedQueue {
  import opened Common

  class Node<T> {
    var data: T
    var next: Node?<T>

    constructor (data: T)
      ensures this.data == data && next == null
    {
      this.data := data;
      next := null;
    }
  }

  lemma Regroup<T>(a: seq<T>, x: T, b: seq<T>, c: seq<T>)
    requires c == [x] + b
    ensures a + c == a + [x] + b
  {
  }

  class Queue<T> {
    var currentSize: nat
    const maxSize: nat
    var head: Node?<T>
    var tail: Node?<T>
    ghost var nodes: seq<Node<T>>

    /** The chain from head ends at tail, has no cycle and is as long as the size says. */
    ghost predicate Valid()
      reads this, nodes
    {
      && currentSize == |nodes|
      && Distinct(nodes)
      && (forall i {:trigger nodes[i].next} :: 0 <= i < |nodes| - 1 ==> nodes[i].next == nodes[i + 1])
      && (if |nodes| == 0 then head == null && tail == null
          else head == nodes[0] && tail == nodes[|nodes| - 1] && tail.next == null)
    }

    ghost function Contents(): (s: seq<T>)
      reads this, nodes
      ensures |s| == |nodes| && forall i :: 0 <= i < |s| ==> s[i] == nodes[i].data
    {
      seq(|nodes|, i requires 0 <= i < |nodes| reads this, nodes => nodes[i].data)
    }

    constructor (maxSize: nat)
      ensures Valid() && Contents() == [] && this.maxSize == maxSize
    {
      this.maxSize := maxSize;
      currentSize := 0;
      head := null;
      tail := null;
      nodes := [];
    }

    method IsEmpty() returns (r: bool)
      requires Valid()
      ensures r <==> Contents() == []
    {
      r := currentSize == 0;
    }

    method IsFull() returns (r: bool)
      requires Valid()
      ensures r <==> maxSize != 0 && |Contents()| >= maxSize
    {
      r := false;
      if maxSize != 0 {
        r := currentSize >= maxSize;
      }
    }

    /** Lines 113-124, once the wait loop has found room. */
    method Append(data: T)
      requires Valid()
      requires maxSize != 0 ==> |Contents()| < maxSize
      modifies this, nodes
      ensures Valid() && fresh(set n | n in nodes && n !in old(nodes))
      ensures Contents() == old(Contents()) + [data]
      ensures maxSize != 0 ==> |Contents()| <= maxSize
    {
      var node := new Node(data);
      if currentSize == 0 {
        head := node;
        tail := node;
      } else {
        tail.next := node;
        tail := node;
      }
      nodes := nodes + [node];
      currentSize := currentSize + 1;
    }

    /** Lines 158-167, once the wait loop has found an item. */
    method RemoveHead() returns (data: T)
      requires Valid() && Contents() != []
      modifies this
      ensures Valid()
      ensures old(Contents()) == [data] + Contents()
      ensures nodes == old(nodes)[1..] && currentSize == old(currentSize) - 1
    {
      data := head.data;
      assert head.next == if |nodes| == 1 then null else nodes[1];
      head := head.next;
      if head == null {
        tail := null;
      }
      nodes := nodes[1..];
      currentSize := currentSize - 1;
    }

    lemma SizeIsLength()
      requires Valid()
      ensures currentSize == |Contents()|
    {
    }

    /** queue_clear with no other thread at work: every item is freed once, oldest first. */
    method Clear() returns (freed: seq<T>)
      requires Valid()
      modifies this
      ensures Valid() && Contents() == []
      ensures freed == old(Contents())
    {
      hide Valid, Contents;
      freed := [];
      ghost var all := Contents();
      SizeIsLength();
      while currentSize > 0
        invariant Valid() && currentSize == |Contents()|
        invariant freed + Contents() == all
        decreases currentSize
      {
        ghost var before := Contents();
        var data := RemoveHead();
        Regroup(freed, data, Contents(), before);
        freed := freed + [data];
        SizeIsLength();
      }
    }
  }
}
