/**
 The doubly linked list of linked_list.c: pushes and pops at either end and at a position,
 removal of a node, searching, and the in-place merge sort.
 */
module LinkedList {
  import opened Common
  import opened ListSort

  class Node<T> {
    const data: T
    var prev: Node?<T>
    var next: Node?<T>

    constructor (data: T)
      ensures this.data == data && prev == null && next == null
    {
      this.data := data;
      prev := null;
      next := null;
    }
  }

  /** Following `next` from `head` visits exactly `ns`. */
  ghost predicate Chain<T>(head: Node?<T>, ns: seq<Node<T>>)
    reads ns
  {
    && Distinct(ns)
    && (forall i {:trigger ns[i].next} :: 0 <= i < |ns| - 1 ==> ns[i].next == ns[i + 1])
    && (if |ns| == 0 then head == null else head == ns[0] && ns[|ns| - 1].next == null)
  }

  /** Every node but the first points back to its predecessor. */
  ghost predicate PrevLinked<T>(ns: seq<Node<T>>)
    reads ns
  {
    forall i {:trigger ns[i].prev} :: 1 <= i < |ns| ==> ns[i].prev == ns[i - 1]
  }

  ghost predicate Apart<T>(a: seq<Node<T>>, b: seq<Node<T>>) {
    forall i, j :: 0 <= i < |a| && 0 <= j < |b| ==> a[i] != b[j]
  }

  /** The comparison of two nodes is the comparison of their data. */
  function ByData<T>(less: (T, T) -> bool): (Node<T>, Node<T>) -> bool {
    (m: Node<T>, n: Node<T>) => less(m.data, n.data)
  }

  // ----- split, merge, merge_sort -----

  /** split: `slow` advances one node for every two of `fast`. */
  method Split<T>(head: Node<T>, ghost ns: seq<Node<T>>) returns (first: Node<T>, second: Node?<T>)
    requires Chain(head, ns)
    modifies ns
    ensures Chain(first, ns[..(|ns| + 1) / 2]) && Chain(second, ns[(|ns| + 1) / 2..])
    ensures forall n :: n in ns ==> n.prev == old(n.prev)
  {
    var slow, fast := head, head.next;
    ghost var i := 0;
    while fast != null
      invariant 0 <= i < |ns| && slow == ns[i]
      invariant fast != null ==> 2 * i + 1 < |ns| && fast == ns[2 * i + 1]
      invariant fast == null ==> i + 1 == (|ns| + 1) / 2
      invariant Chain(head, ns)
      invariant forall n :: n in ns ==> n.prev == old(n.prev)
      decreases if fast == null then 0 else |ns| - 2 * i
    {
      assert fast.next == if 2 * i + 2 < |ns| then ns[2 * i + 2] else null;
      fast := fast.next;
      if fast != null {
        assert fast.next == if 2 * i + 3 < |ns| then ns[2 * i + 3] else null;
        slow := slow.next;
        fast := fast.next;
        i := i + 1;
      }
    }
    first := head;
    second := slow.next;
    slow.next := null;
  }

  lemma MergeFresh<T>(less: (Node<T>, Node<T>) -> bool, a: seq<Node<T>>, b: seq<Node<T>>, x: Node<T>)
    requires x !in a && x !in b
    ensures x !in Merge(less, a, b)
  {
    MergeMembers(less, a, b, x);
  }

  /** The relinking of lines 961-963 and 969-971: x goes in front of a chain. */
  method LinkInFront<T>(x: Node<T>, head: Node<T>, ghost ns: seq<Node<T>>)
    requires Chain(head, ns) && PrevLinked(ns) && x !in ns
    modifies x, head
    ensures Chain(x, [x] + ns) && PrevLinked([x] + ns) && x.prev == null
  {
    x.next := head;
    head.prev := x;
    x.prev := null;
    ghost var ms := [x] + ns;
    forall i | 1 <= i < |ms|
      ensures ms[i].prev == ms[i - 1]
    {
      if i > 1 {
        assert ms[i] == ns[i - 1] && ms[i - 1] == ns[i - 2];
      }
    }
    forall i | 0 <= i < |ms| - 1
      ensures ms[i].next == ms[i + 1]
    {
      if i > 0 {
        assert ms[i] == ns[i - 1] && ms[i + 1] == ns[i];
      }
    }
  }

  /** The chain behind its first node. */
  lemma ChainTail<T>(head: Node<T>, ns: seq<Node<T>>)
    requires Chain(head, ns) && PrevLinked(ns)
    ensures |ns| > 0 && head == ns[0] && head !in ns[1..]
    ensures Chain(head.next, ns[1..]) && PrevLinked(ns[1..])
  {
  }

  lemma MergeUnfold<T>(less: (T, T) -> bool, a: seq<Node<T>>, b: seq<Node<T>>)
    requires |a| > 0 && |b| > 0
    ensures var cmp := ByData(less);
      Merge(cmp, a, b) == if less(a[0].data, b[0].data) then [a[0]] + Merge(cmp, a[1..], b)
                          else [b[0]] + Merge(cmp, a, b[1..])
  {
  }

  lemma MergeWithNone<T>(less: (T, T) -> bool, a: seq<Node<T>>, b: seq<Node<T>>)
    ensures |a| == 0 ==> Merge(ByData(less), a, b) == b
    ensures |b| == 0 ==> Merge(ByData(less), a, b) == a
  {
  }

  lemma MergeHead<T>(cmp: (Node<T>, Node<T>) -> bool, a: seq<Node<T>>, b: seq<Node<T>>)
    requires |a| + |b| > 0
    ensures Merge(cmp, a, b)[0] in a || Merge(cmp, a, b)[0] in b
  {
    MergeMembers(cmp, a, b, Merge(cmp, a, b)[0]);
  }

  /** merge: relinks two sorted chains into one, recursively. */
  method MergeChains<T>(less: (T, T) -> bool, first: Node?<T>, second: Node?<T>,
                        ghost a: seq<Node<T>>, ghost b: seq<Node<T>>) returns (result: Node?<T>)
    requires Chain(first, a) && Chain(second, b) && PrevLinked(a) && PrevLinked(b) && Apart(a, b)
    modifies a, b
    ensures Chain(result, Merge(ByData(less), a, b)) && PrevLinked(Merge(ByData(less), a, b))
    ensures a != [] && b != [] ==> result != null && result.prev == null
    decreases |a| + |b|
  {
    hide Merge, PrevLinked;
    MergeWithNone(less, a, b);
    if first == null {
      return second;
    }
    if second == null {
      return first;
    }
    ghost var cmp := ByData(less);
    MergeUnfold(less, a, b);
    if less(first.data, second.data) {
      result := first;
      ChainTail(first, a);
      MergeFresh(cmp, a[1..], b, first);
      MergeHead(cmp, a[1..], b);
      var rest := MergeChains(less, first.next, second, a[1..], b);
      LinkInFront(result, rest, Merge(cmp, a[1..], b));
    } else {
      result := second;
      ChainTail(second, b);
      MergeFresh(cmp, a, b[1..], second);
      MergeHead(cmp, a, b[1..]);
      var rest := MergeChains(less, first, second.next, a, b[1..]);
      LinkInFront(result, rest, Merge(cmp, a, b[1..]));
    }
  }

  /** merge_sort: halves the chain, sorts both halves in place and merges them. */
  method MergeSort<T>(less: (T, T) -> bool, head: Node?<T>, ghost ns: seq<Node<T>>) returns (result: Node?<T>)
    requires Chain(head, ns) && PrevLinked(ns)
    modifies ns
    ensures Chain(result, Sort(ByData(less), ns)) && PrevLinked(Sort(ByData(less), ns))
    ensures |ns| >= 2 ==> result != null && result.prev == null
    ensures |ns| < 2 ==> result == head && (head != null ==> head.prev == old(head.prev))
    decreases |ns|, 1
  {
    hide Sort, Merge;
    ShortSort(less, ns);
    if head == null || head.next == null {
      return head;
    }
    ghost var k, cmp := (|ns| + 1) / 2, ByData(less);
    SortUnfold(cmp, ns, k);
    var first, second := Split(head, ns);
    result := SortHalves(less, first, second, ns[..k], ns[k..]);
  }

  /** Lines 991-994: sorts two disjoint chains and merges them. */
  method SortHalves<T>(less: (T, T) -> bool, first: Node?<T>, second: Node?<T>,
                       ghost a: seq<Node<T>>, ghost b: seq<Node<T>>) returns (result: Node?<T>)
    requires Chain(first, a) && Chain(second, b) && PrevLinked(a) && PrevLinked(b) && Apart(a, b)
    requires |a| > 0 && |b| > 0
    modifies a, b
    ensures Chain(result, Merge(ByData(less), Sort(ByData(less), a), Sort(ByData(less), b)))
    ensures PrevLinked(Merge(ByData(less), Sort(ByData(less), a), Sort(ByData(less), b)))
    ensures result != null && result.prev == null
    decreases |a| + |b|, 0
  {
    hide Sort, Merge, Chain, PrevLinked;
    ghost var cmp := ByData(less);
    ghost var sa, sb := Sort(cmp, a), Sort(cmp, b);
    SortApart(cmp, a, b);
    assert forall i :: 0 <= i < |b| ==> b[i] !in a;
    var f := MergeSort(less, first, a);
    assert Chain(second, b) && PrevLinked(b);
    var s := MergeSort(less, second, b);
    assert Chain(f, sa) && PrevLinked(sa);
    result := MergeChains(less, f, s, sa, sb);
  }

  lemma ShortSort<T>(less: (T, T) -> bool, ns: seq<Node<T>>)
    ensures |ns| <= 1 ==> Sort(ByData(less), ns) == ns
  {
  }

  lemma SortApart<T>(cmp: (Node<T>, Node<T>) -> bool, a: seq<Node<T>>, b: seq<Node<T>>)
    requires Apart(a, b)
    ensures Apart(Sort(cmp, a), Sort(cmp, b))
    ensures forall i :: 0 <= i < |a| ==> Sort(cmp, a)[i] in a && Sort(cmp, a)[i] !in b
    ensures forall i :: 0 <= i < |b| ==> Sort(cmp, b)[i] in b && Sort(cmp, b)[i] !in a
  {
    hide *;
    var sa, sb := Sort(cmp, a), Sort(cmp, b);
    forall i | 0 <= i < |a|
      ensures sa[i] in a && sa[i] !in b
    {
      SortSameMembers(cmp, a, sa[i]);
      ApartMember(a, b, sa[i]);
    }
    forall i | 0 <= i < |b|
      ensures sb[i] in b && sb[i] !in a
    {
      SortSameMembers(cmp, b, sb[i]);
      ApartMember(a, b, sb[i]);
    }
    ApartOf(sa, sb, b);
  }

  lemma ApartMember<T>(a: seq<Node<T>>, b: seq<Node<T>>, x: Node<T>)
    requires Apart(a, b)
    ensures !(x in a && x in b)
  {
  }

  lemma ApartOf<T>(a: seq<Node<T>>, b: seq<Node<T>>, c: seq<Node<T>>)
    requires forall i :: 0 <= i < |a| ==> a[i] !in c
    requires forall j :: 0 <= j < |b| ==> b[j] in c
    ensures Apart(a, b)
  {
  }

  // ----- the list -----

  /** The elements of s that equal x, in order. */
  ghost function Matches<T>(eq: (T, T) -> bool, x: T, s: seq<T>): seq<T> {
    if |s| == 0 then []
    else Matches(eq, x, s[..|s| - 1]) + if eq(x, s[|s| - 1]) then [s[|s| - 1]] else []
  }

  ghost function Data<T>(ns: seq<Node<T>>): (s: seq<T>)
    ensures |s| == |ns| && forall i :: 0 <= i < |s| ==> s[i] == ns[i].data
  {
    seq(|ns|, i requires 0 <= i < |ns| => ns[i].data)
  }

  /** A stretch of a list: linked both ways inside, whatever its ends point to. */
  ghost predicate Stretch<T>(ns: seq<Node<T>>)
    reads ns
  {
    && (forall i {:trigger ns[i].next} :: 0 <= i < |ns| - 1 ==> ns[i].next == ns[i + 1])
    && PrevLinked(ns)
  }

  lemma InsertedData<T>(a: seq<Node<T>>, x: Node<T>, b: seq<Node<T>>)
    ensures Data(a + ([x] + b)) == (Data(a) + Data(b))[..|a|] + [x.data] + (Data(a) + Data(b))[|a|..]
  {
  }

  lemma SplitData<T>(ns: seq<Node<T>>, i: nat)
    requires i <= |ns|
    ensures Data(ns) == Data(ns[..i]) + Data(ns[i..])
  {
  }

  lemma RemovedData<T>(ns: seq<Node<T>>, i: nat)
    requires i < |ns|
    ensures Data(ns[..i] + ns[i + 1..]) == Data(ns)[..i] + Data(ns)[i + 1..]
  {
  }

  lemma DistinctInsert<T>(ns: seq<Node<T>>, x: Node<T>, i: nat)
    requires Distinct(ns) && i <= |ns| && x !in ns
    ensures Distinct(ns[..i] + ([x] + ns[i..]))
  {
  }

  /** Two stretches whose facing ends point at each other are one. */
  lemma Joined<T>(a: seq<Node<T>>, b: seq<Node<T>>)
    requires Stretch(a) && Stretch(b)
    requires |a| > 0 && |b| > 0 ==> a[|a| - 1].next == b[0] && b[0].prev == a[|a| - 1]
    ensures Stretch(a + b)
  {
    var s, m := a + b, |a|;
    forall i | 0 <= i < |s| - 1
      ensures s[i].next == s[i + 1]
    {
      assert i < m ==> s[i] == a[i];
      assert i >= m ==> s[i] == b[i - m];
    }
    forall i | 1 <= i < |s|
      ensures s[i].prev == s[i - 1]
    {
      assert i < m ==> s[i] == a[i];
      assert i >= m ==> s[i] == b[i - m];
    }
  }

  lemma Parts<T>(ns: seq<Node<T>>, i: nat)
    requires Stretch(ns) && Distinct(ns) && i <= |ns|
    ensures Stretch(ns[..i]) && Stretch(ns[i..]) && Distinct(ns[..i]) && Distinct(ns[i..]) && Apart(ns[..i], ns[i..])
    ensures 0 < i < |ns| ==> ns[i - 1].next == ns[i] && ns[i].prev == ns[i - 1]
  {
  }

  lemma InFront<X>(x: X, s: seq<X>, t: seq<X>)
    requires |t| > 0 && t[0] == x && t[1..] == s
    ensures t == s[..0] + [x] + s[0..]
  {
  }

  lemma AtTheEnd<X>(x: X, s: seq<X>, t: seq<X>)
    requires |t| > 0 && t[|t| - 1] == x && t[..|t| - 1] == s
    ensures t == s[..|s|] + [x] + s[|s|..]
  {
  }

  class List<T> {
    var head: Node?<T>
    var tail: Node?<T>
    var size: nat
    ghost var nodes: seq<Node<T>>

    /** All but the tail pointer: the chain from head, its back links and its length. */
    ghost predicate Linked()
      reads this, nodes
    {
      && Distinct(nodes) && Stretch(nodes) && size == |nodes|
      && (if |nodes| == 0 then head == null
          else head == nodes[0] && head.prev == null && nodes[|nodes| - 1].next == null)
    }

    ghost predicate Valid()
      reads this, nodes
    {
      Linked() && if |nodes| == 0 then tail == null else tail == nodes[|nodes| - 1]
    }

    ghost function Contents(): seq<T>
      reads this
    {
      Data(nodes)
    }

    constructor ()
      ensures Valid() && Contents() == []
    {
      head := null;
      tail := null;
      size := 0;
      nodes := [];
    }

    method PushHead(data: T)
      requires Valid()
      modifies this, nodes
      ensures Valid() && Contents() == [data] + old(Contents())
      ensures |nodes| > 0 && fresh(nodes[0]) && nodes[1..] == old(nodes)
    {
      var node := new Node(data);
      if head == null {
        head := node;
        tail := node;
        tail.next := null;
        head.prev := null;
      } else {
        node.next := head;
        node.prev := null;
        head.prev := node;
        head := node;
      }
      size := size + 1;
      nodes := [node] + nodes;
    }

    method PushTail(data: T)
      requires Valid()
      modifies this, nodes
      ensures Valid() && Contents() == old(Contents()) + [data]
      ensures |nodes| > 0 && fresh(nodes[|nodes| - 1]) && nodes[..|nodes| - 1] == old(nodes)
    {
      var node := new Node(data);
      if head == null {
        head := node;
        tail := node;
        tail.next := null;
        head.prev := null;
      } else {
        node.prev := tail;
        node.next := null;
        tail.next := node;
        tail := node;
      }
      size := size + 1;
      nodes := nodes + [node];
    }

    /** The nodes are the given ones with one more at the position. */
    ghost predicate Inserted(before: seq<Node<T>>, position: nat)
      reads this
    {
      position < |nodes| == |before| + 1 && nodes == before[..position] + [nodes[position]] + before[position..]
    }

    lemma SizeIsLength()
      requires Valid()
      ensures size == |nodes| == |Contents()|
    {
    }

    /** list_push_position: refuses a position beyond the end. */
    method PushPosition(data: T, position: nat) returns (ok: bool)
      requires Valid()
      modifies this, nodes
      ensures Valid() && ok == (position <= |old(Contents())|)
      ensures ok ==> Contents() == old(Contents())[..position] + [data] + old(Contents())[position..]
      ensures ok ==> Inserted(old(nodes), position) && fresh(nodes[position])
      ensures !ok ==> Contents() == old(Contents()) && nodes == old(nodes)
    {
      SizeIsLength();
      hide Valid, Data;
      ghost var before, held := nodes, Contents();
      if position > size {
        return false;
      }
      if position == 0 {
        PushHead(data);
        InFront(nodes[0], before, nodes);
        InFront(data, held, Contents());
        return true;
      }
      if position == size {
        PushTail(data);
        AtTheEnd(nodes[position], before, nodes);
        AtTheEnd(data, held, Contents());
        return true;
      }
      InsertBetween(data, position);
      return true;
    }

    /** Lines 206-229: a node between two others. */
    method InsertBetween(data: T, position: nat)
      requires Valid() && 0 < position < |nodes|
      modifies this, nodes
      ensures Valid() && Contents() == old(Contents())[..position] + [data] + old(Contents())[position..]
      ensures Inserted(old(nodes), position) && fresh(nodes[position])
    {
      var node := new Node(data);
      hide Stretch, Distinct, Data;
      var current := Walk(position - 1);
      ghost var a, b := nodes[..position], nodes[position..];
      SplitData(nodes, position);
      LinkAfter(current, node, position);
      InsertedData(a, node, b);
    }

    /** Lines 221-229. */
    method LinkAfter(current: Node<T>, node: Node<T>, ghost i: nat)
      requires Valid() && 0 < i < |nodes| && current == nodes[i - 1] && node !in nodes
      modifies this, nodes, node
      ensures Valid() && nodes == old(nodes)[..i] + ([node] + old(nodes)[i..])
    {
      ghost var a, b := nodes[..i], nodes[i..];
      Parts(nodes, i);
      DistinctInsert(nodes, node, i);
      node.next := current.next;
      node.prev := current;
      if current.next != null {
        current.next.prev := node;
      }
      current.next := node;
      size := size + 1;
      nodes := a + ([node] + b);
      Joined([node], b);
      Joined(a, [node] + b);
    }

    /** The walk from the head to a position. */
    method Walk(position: nat) returns (current: Node<T>)
      requires Linked() && position < |nodes|
      ensures current == nodes[position]
    {
      current := head;
      for idx := 0 to position
        invariant current == nodes[idx]
      {
        current := current.next;
      }
    }

    method PopHead() returns (data: Option<T>)
      requires Valid()
      modifies this, nodes
      ensures Valid()
      ensures old(Contents()) == [] ==> data == None && Contents() == []
      ensures old(Contents()) != [] ==> data == Some(old(Contents())[0]) && Contents() == old(Contents())[1..]
      ensures nodes == if old(nodes) == [] then [] else old(nodes)[1..]
    {
      if head == null {
        return None;
      }
      data := Some(head.data);
      if head == tail {
        head := null;
        tail := null;
      } else {
        head := head.next;
        head.prev := null;
      }
      size := size - 1;
      nodes := nodes[1..];
    }

    method PopTail() returns (data: Option<T>)
      requires Valid()
      modifies this, nodes
      ensures Valid()
      ensures old(Contents()) == [] ==> data == None && Contents() == []
      ensures old(Contents()) != [] ==>
        var last := |old(Contents())| - 1;
        data == Some(old(Contents())[last]) && Contents() == old(Contents())[..last]
      ensures nodes == if old(nodes) == [] then [] else old(nodes)[..|old(nodes)| - 1]
    {
      if tail == null {
        return None;
      }
      data := Some(tail.data);
      if head == tail {
        head := null;
        tail := null;
      } else {
        tail := tail.prev;
        tail.next := null;
      }
      size := size - 1;
      nodes := nodes[..|nodes| - 1];
    }

    /**
     list_pop_position: out of bounds yields NULL and changes nothing. `freed` is what
     custom_free is called on: strictly inside the list that is the data being returned.
     */
    method PopPosition(position: nat) returns (data: Option<T>, freed: Option<T>)
      requires Valid()
      modifies this, nodes
      ensures Valid()
      ensures position >= |old(Contents())| ==> data == None && Contents() == old(Contents()) && nodes == old(nodes)
      ensures position < |old(Contents())| ==>
        && data == Some(old(Contents())[position])
        && Contents() == old(Contents())[..position] + old(Contents())[position + 1..]
        && nodes == old(nodes)[..position] + old(nodes)[position + 1..]
      ensures freed == if 0 < position < |old(Contents())| - 1 then data else None
    {
      freed := None;
      if position >= size {
        return None, None;
      }
      if position == 0 {
        data := PopHead();
        return;
      }
      if position == size - 1 {
        data := PopTail();
        return;
      }
      var current := Walk(position);
      data := Some(current.data);
      RemovedData(nodes, position);
      Unlink(current, position);
      freed := data;
    }

    /** Lines 361-367. */
    method Unlink(current: Node<T>, ghost i: nat)
      requires Valid() && 0 < i < |nodes| - 1 && current == nodes[i]
      modifies this, nodes
      ensures Valid() && nodes == old(nodes)[..i] + old(nodes)[i + 1..]
    {
      ghost var a, b := nodes[..i], nodes[i + 1..];
      Parts(nodes, i);
      Parts(nodes, i + 1);
      current.prev.next := current.next;
      if current.next != null {
        current.next.prev := current.prev;
      }
      size := size - 1;
      nodes := a + b;
      Joined(a, b);
    }

    /** remove_node: unlinks a node of the list wherever it is and frees its data. */
    method RemoveNode(node: Node<T>, ghost i: nat) returns (freed: T)
      requires Valid() && i < |nodes| && nodes[i] == node
      modifies this, nodes
      ensures Valid() && nodes == old(nodes)[..i] + old(nodes)[i + 1..]
      ensures freed == old(Contents())[i] && Contents() == old(Contents())[..i] + old(Contents())[i + 1..]
    {
      hide Valid;
      RemovedData(nodes, i);
      UnlinkAnywhere(node, i);
      freed := node.data;
    }

    /** Lines 885-901 and 908. */
    method UnlinkAnywhere(node: Node<T>, ghost i: nat)
      requires Valid() && i < |nodes| && nodes[i] == node
      modifies this, nodes
      ensures Valid() && nodes == old(nodes)[..i] + old(nodes)[i + 1..]
    {
      ghost var a, b := nodes[..i], nodes[i + 1..];
      Parts(nodes, i);
      Parts(nodes, i + 1);
      if node.prev != null {
        node.prev.next := node.next;
      } else {
        head := node.next;
      }
      if node.next != null {
        node.next.prev := node.prev;
      } else {
        tail := node.prev;
      }
      size := size - 1;
      nodes := a + b;
      Joined(a, b);
    }

    /**
     list_sort: the head chain becomes the sorted one with its back links, but the tail
     pointer is left where it was; so for a strict weak order the list is whole again exactly
     if the last element was strictly greater than all others.
     */
    method SortList(less: (T, T) -> bool)
      requires Valid()
      modifies this, nodes
      ensures Linked() && nodes == Sort(ByData(less), old(nodes))
      ensures tail == old(tail)
      ensures Valid() <==> |nodes| == 0 || nodes[|nodes| - 1] == old(nodes)[|nodes| - 1]
      ensures OrderOf(less, old(nodes)) ==> (Valid() <==> LastIsGreatest(less, old(Contents())))
    {
      ghost var before := nodes;
      ValidNodes();
      hide Sort, Valid, Linked, OrderOf, LastIsGreatest, Distinct;
      SortHead(less);
      if OrderOf(less, before) && |before| > 0 {
        SortKeepsTail(less, before);
      }
      ShortIsGreatest(less, Data(before));
    }

    lemma ValidNodes()
      requires Valid()
      ensures Distinct(nodes)
    {
    }

    /** Line 752. */
    method SortHead(less: (T, T) -> bool)
      requires Valid()
      modifies this, nodes
      ensures Linked() && nodes == Sort(ByData(less), old(nodes))
      ensures tail == old(tail)
      ensures Valid() <==> |nodes| == 0 || nodes[|nodes| - 1] == old(nodes)[|nodes| - 1]
    {
      hide Sort, Merge;
      ghost var before := nodes;
      ShortSort(less, nodes);
      head := MergeSort(less, head, nodes);
      nodes := Sort(ByData(less), nodes);
    }
  }

  /** `less` is a strict weak order on the data of these nodes. */
  ghost predicate OrderOf<T>(less: (T, T) -> bool, ns: seq<Node<T>>) {
    StrictWeakOrder(ByData(less), (set n | n in ns))
  }

  ghost predicate LastIsGreatest<T>(less: (T, T) -> bool, s: seq<T>) {
    forall i :: 0 <= i < |s| - 1 ==> less(s[i], s[|s| - 1])
  }

  lemma ShortIsGreatest<T>(less: (T, T) -> bool, s: seq<T>)
    ensures |s| <= 1 ==> LastIsGreatest(less, s)
  {
  }

  /** The last node stays last exactly when its element exceeds all others strictly. */
  lemma SortKeepsTail<T>(less: (T, T) -> bool, ns: seq<Node<T>>)
    requires Distinct(ns) && |ns| > 0 && OrderOf(less, ns)
    ensures Sort(ByData(less), ns)[|ns| - 1] == ns[|ns| - 1] <==> LastIsGreatest(less, Data(ns))
  {
    hide Sort;
    LastStaysIff(ByData(less), (set n | n in ns), ns);
  }

  /** A list that list_sort breaks: 2, 1 is sorted to 1, 2 with the tail still at the 1. */
  method SortBreaksTheTail() returns (list: List<int>)
    ensures list.Linked() && list.Contents() == [1, 2] && !list.Valid()
    ensures list.tail != null && list.tail.data == 1
  {
    hide Sort;
    list := new List();
    list.PushTail(2);
    list.PushTail(1);
    ghost var ns := list.nodes;
    var less := (x: int, y: int) => x < y;
    assert list.Contents() == [2, 1] && less(1, 2) && !less(2, 1);
    list.SortList(less);
    assert !LastIsGreatest(less, [2, 1]) by {
      assert !less([2, 1][0], [2, 1][1]);
    }
    SortPermutes(ByData(less), ns);
    TwoNodes(list.nodes, ns);
  }

  /** Two nodes in another order are the same two, swapped or not. */
  lemma TwoNodes<T>(a: seq<Node<T>>, b: seq<Node<T>>)
    requires |a| == |b| == 2 && multiset(a) == multiset(b)
    ensures a == b || a == [b[1], b[0]]
  {
    assert a == [a[0], a[1]] && b == [b[0], b[1]];
    assert a[0] in multiset(b);
  }

  /** list_find_all_occurrences: all matches, latest first; no list at all for an empty input. */
  method FindAllOccurrences<T>(list: List<T>, eq: (T, T) -> bool, x: T) returns (found: List?<T>)
    requires list.Valid()
    ensures list.Contents() == [] ==> found == null
    ensures list.Contents() != [] ==>
      && found != null && fresh(found) && fresh(found.nodes) && found.Valid()
      && found.Contents() == Reverse(Matches(eq, x, list.Contents()))
  {
    if list.size == 0 {
      return null;
    }
    assert Chain(list.head, list.nodes);
    hide Reverse, Matches, Chain, Stretch, Distinct;
    found := new List();
    NoMatches(eq, x);
    var current := list.head;
    ghost var ns, s := list.nodes, list.Contents();
    NextInChain(list.head, ns, 0);
    assert s[..0] == [];
    for idx := 0 to list.size
      invariant found.Valid() && fresh(found) && fresh(found.nodes)
      invariant idx < |ns| ==> current == ns[idx]
      invariant found.Contents() == Reverse(Matches(eq, x, s[..idx]))
    {
      NextInChain(list.head, ns, idx);
      MatchesStep(eq, x, s, idx);
      if eq(x, current.data) {
        found.PushHead(current.data);
      }
      current := current.next;
    }
    assert s[..|s|] == s;
  }

  lemma NoMatches<T>(eq: (T, T) -> bool, x: T)
    ensures Reverse(Matches(eq, x, [])) == []
  {
  }

  lemma NextInChain<T>(head: Node?<T>, ns: seq<Node<T>>, i: nat)
    requires Chain(head, ns) && i < |ns|
    ensures head == ns[0]
    ensures ns[i].next == if i < |ns| - 1 then ns[i + 1] else null
  {
  }

  lemma MatchesStep<T>(eq: (T, T) -> bool, x: T, s: seq<T>, n: nat)
    requires n < |s|
    ensures Reverse(Matches(eq, x, s[..n + 1]))
         == (if eq(x, s[n]) then [s[n]] else []) + Reverse(Matches(eq, x, s[..n]))
  {
    assert s[..n + 1][..n] == s[..n];
    if eq(x, s[n]) {
      ReverseConcat(Matches(eq, x, s[..n]), [s[n]]);
      assert Reverse([s[n]]) == [s[n]];
    } else {
      assert Matches(eq, x, s[..n]) + [] == Matches(eq, x, s[..n]);
    }
  }
}
