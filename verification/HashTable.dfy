/**
 The memory of hash_table.c: an array of buckets, each a chain of nodes linked by `next`.
 Keys and data of a node never change; only links do.
 */
module HashTable {
  import opened Common
  import opened TableModel
  import Limbs

  class Node<D> {
    const key: Key
    const data: D
    /** The whole key this node was added under. */
    ghost const origin: Key
    var next: Node?<D>

    constructor (key: Key, data: D)
      ensures this.key == Clip(key, MAX_KEY_SIZE) == Clip(key, 64)
      ensures this.data == data && origin == key && next == null
    {
      this.key := Clip(key, MAX_KEY_SIZE);
      this.data := data;
      this.origin := key;
      next := null;
    }
  }

  /** Following `next` from `head` visits exactly `ns`. */
  ghost predicate Chain<D>(head: Node?<D>, ns: seq<Node<D>>)
    reads ns
  {
    && Distinct(ns)
    && (forall i {:trigger ns[i].next} :: 0 <= i < |ns| - 1 ==> ns[i].next == ns[i + 1])
    && (if |ns| == 0 then head == null else head == ns[0] && ns[|ns| - 1].next == null)
  }

  ghost function Entries<D>(ns: seq<Node<D>>): (s: seq<Entry<D>>)
    ensures |s| == |ns| && forall i :: 0 <= i < |ns| ==> s[i] == Entry(ns[i].key, ns[i].data)
  {
    seq(|ns|, i requires 0 <= i < |ns| => Entry(ns[i].key, ns[i].data))
  }

  ghost predicate Apart<D>(a: seq<Node<D>>, b: seq<Node<D>>) {
    forall n :: n in a ==> n !in b
  }

  /** Every node is in the bucket of the key it was added under. */
  ghost predicate InBucket<D>(ns: seq<Node<D>>, b: nat, size: nat) {
    size > 0 && forall n :: n in ns ==> n.key == Clip(n.origin, MAX_KEY_SIZE) && Index(n.origin, size) == b
  }

  /** The chains are disjoint, and every node is among `nodes` and in its bucket. */
  ghost predicate Placed<D>(chains: seq<seq<Node<D>>>, nodes: set<Node<D>>) {
    && (forall b, n :: 0 <= b < |chains| && n in chains[b] ==> n in nodes)
    && (forall b :: 0 <= b < |chains| ==> InBucket(chains[b], b, |chains|))
    && (forall a, b :: 0 <= a < |chains| && 0 <= b < |chains| && a != b ==> Apart(chains[a], chains[b]))
  }

  lemma PlacedAdd<D>(chains: seq<seq<Node<D>>>, nodes: set<Node<D>>, index: nat, node: Node<D>)
    requires Placed(chains, nodes) && index < |chains| && node !in nodes
    requires node.key == Clip(node.origin, MAX_KEY_SIZE) && Index(node.origin, |chains|) == index
    ensures Placed(chains[index := chains[index] + [node]], nodes + {node})
  {
    hide Clip, Index;
  }

  lemma PlacedDrop<D>(chains: seq<seq<Node<D>>>, nodes: set<Node<D>>, index: nat, i: nat)
    requires Placed(chains, nodes) && index < |chains| && i < |chains[index]|
    ensures Placed(chains[index := DropAt(chains[index], i)], nodes)
  {
    hide Clip, Index;
    assert forall n :: n in DropAt(chains[index], i) ==> n in chains[index];
  }

  lemma PlacedApart<D>(chains: seq<seq<Node<D>>>, nodes: set<Node<D>>, index: nat)
    requires Placed(chains, nodes) && index < |chains|
    ensures forall n :: n in chains[index] ==> n in nodes
    ensures forall b, n :: 0 <= b < |chains| && b != index && n in chains[b] ==> n in nodes && n !in chains[index]
  {
  }

  lemma PolyMod(v: nat, t: nat, c: nat)
    requires t == v % PRIME
    ensures (t * 256 + c) % PRIME == (256 * v + c) % PRIME
  {
    var q := v / 65521;
    assert 256 * v + c == (t * 256 + c) + 65521 * (256 * q);
    Limbs.ModShift(t * 256 + c, 256 * q, 65521);
  }

  /** hash: the polynomial, reduced at every letter so that it stays a uint32_t. */
  method Hash(size: nat, key: Key) returns (index: nat)
    requires size > 0
    ensures index == Index(key, size) == Poly(key) % 65521 % size
  {
    var target := 0;
    var i := 0;
    while i < |key|
      invariant 0 <= i <= |key| && target == Poly(key[..i]) % PRIME
    {
      assert key[..i + 1][..i] == key[..i];
      PolyMod(Poly(key[..i]), target, key[i]);
      assert target * 256 + key[i] < 0x1_0000_0000;
      target := (target * 256 + key[i]) % PRIME;
      i := i + 1;
    }
    assert key[..i] == key;
    index := target % size;
  }

  /** The loop at lines 113-116: the last node of a chain. */
  method LastNode<D>(head: Node<D>, ghost ns: seq<Node<D>>) returns (last: Node<D>)
    requires Chain(head, ns)
    ensures |ns| > 0 && last == ns[|ns| - 1]
  {
    last := head;
    ghost var i := 0;
    while last.next != null
      invariant 0 <= i < |ns| && last == ns[i]
      decreases |ns| - i
    {
      assert i < |ns| - 1;
      last := last.next;
      i := i + 1;
    }
  }

  /** Lines 113-118: a new node behind the last of a non-empty chain. */
  method LinkLast<D>(head: Node<D>, node: Node<D>, ghost ns: seq<Node<D>>)
    requires Chain(head, ns) && node !in ns && node.next == null
    modifies ns
    ensures Chain(head, ns + [node])
  {
    var last := LastNode(head, ns);
    last.next := node;
    ghost var ms := ns + [node];
    assert forall i {:trigger ms[i].next} :: 0 <= i < |ns| - 1 ==> ms[i].next == ms[i + 1];
  }

  /** Lines 282-289: a node is unlinked; the bucket's head is returned. */
  method Unlink<D>(head: Node?<D>, prev: Node?<D>, node: Node<D>, ghost ns: seq<Node<D>>, ghost i: nat)
    returns (first: Node?<D>)
    requires Chain(head, ns) && i < |ns| && node == ns[i] && prev == if i == 0 then null else ns[i - 1]
    modifies ns
    ensures Chain(first, DropAt(ns, i))
  {
    first := head;
    assert node.next == if i == |ns| - 1 then null else ns[i + 1];
    if prev == null {
      first := node.next;
    } else {
      prev.next := node.next;
    }
    ghost var ms := DropAt(ns, i);
    forall j | 0 <= j < |ms| - 1
      ensures ms[j].next == ms[j + 1]
    {
      if j >= i {
        assert ms[j] == ns[j + 1] && ms[j + 1] == ns[j + 2];
      } else {
        assert ms[j] == ns[j];
      }
    }
  }

  lemma EntriesAppend<D>(ns: seq<Node<D>>, node: Node<D>)
    ensures Entries(ns + [node]) == Entries(ns) + [Entry(node.key, node.data)]
  {
  }

  lemma EntriesDrop<D>(ns: seq<Node<D>>, i: nat)
    requires i < |ns|
    ensures Entries(DropAt(ns, i)) == DropAt(Entries(ns), i)
  {
  }

  /** The loops at lines 150-160 and 272-279: the first node under a key and the node before it. */
  method FindNode<D>(head: Node?<D>, key: Key, ghost ns: seq<Node<D>>) returns (prev: Node?<D>, node: Node?<D>)
    requires Chain(head, ns)
    ensures var i := FirstMatch(Entries(ns), key);
      if i == |ns| then node == null else node == ns[i] && prev == if i == 0 then null else ns[i - 1]
  {
    hide FirstMatch;
    prev, node := null, head;
    ghost var i := 0;
    while node != null && !Matches(node.key, key)
      invariant 0 <= i <= |ns| && node == (if i == |ns| then null else ns[i])
      invariant prev == if i == 0 then null else ns[i - 1]
      invariant forall j :: 0 <= j < i ==> !Matches(Entries(ns)[j].key, key)
      decreases |ns| - i
    {
      assert node.next == if i == |ns| - 1 then null else ns[i + 1];
      prev := node;
      node := node.next;
      i := i + 1;
    }
    MatchAt(Entries(ns), key, i);
  }

  lemma MatchAt<D>(s: seq<Entry<D>>, key: Key, i: nat)
    requires i <= |s| && forall j :: 0 <= j < i ==> !Matches(s[j].key, key)
    requires i < |s| ==> Matches(s[i].key, key)
    ensures FirstMatch(s, key) == i
  {
    hide Matches;
    var m := FirstMatch(s, key);
    assert m <= |s|;
  }

  lemma OneNode<D>(head: Node?<D>, node: Node<D>, ns: seq<Node<D>>)
    requires Chain(head, ns) && head == null && node.next == null
    ensures Chain(node, ns + [node])
  {
  }

  class Table<D> {
    const table: array<Node?<D>>
    ghost var chains: seq<seq<Node<D>>>
    ghost var nodes: set<Node<D>>

    ghost predicate Valid()
      reads this, table, nodes
    {
      && table.Length == |chains| > 0
      && Placed(chains, nodes)
      && (forall b :: 0 <= b < |chains| ==> (forall n :: n in chains[b] ==> n in nodes) && Chain(table[b], chains[b]))
    }

    ghost function Buckets(): (s: seq<seq<Entry<D>>>)
      reads this
      ensures |s| == |chains| && forall b :: 0 <= b < |chains| ==> s[b] == Entries(chains[b])
    {
      seq(|chains|, b requires 0 <= b < |chains| reads this => Entries(chains[b]))
    }

    constructor (size: nat)
      requires size > 0
      ensures Valid() && fresh(table) && fresh(nodes) && Buckets() == Emptied(size)
    {
      table := new Node?<D>[size](_ => null);
      chains := seq(size, _ => []);
      nodes := {};
    }

    /** Chains whose nodes and head no call has touched are still chains. */
    twostate lemma ChainsKept(index: nat)
      requires old(Valid()) && table.Length == |chains| == |old(chains)|
      requires forall b :: 0 <= b < |chains| && b != index ==> chains[b] == old(chains[b]) && table[b] == old(table[b])
      requires forall b, n :: 0 <= b < |chains| && b != index && n in chains[b] ==> n.next == old(n.next)
      ensures forall b :: 0 <= b < |chains| && b != index ==> Chain(table[b], chains[b])
    {
      forall b | 0 <= b < |chains| && b != index
        ensures Chain(table[b], chains[b])
      {
        assert old(Chain(table[b], chains[b]));
        assert forall n :: n in chains[b] ==> n.next == old(n.next);
      }
    }

    /** hash_table_add. */
    method Add(data: D, key: Key)
      requires Valid()
      modifies this, table, nodes
      ensures Valid() && fresh(nodes - old(nodes))
      ensures Buckets() == AddTo(old(Buckets()), key, data)
    {
      hide Clip, Index, Chain, Entries, Placed;
      var index := Hash(table.Length, key);
      var node := new Node(key, data);
      ghost var ns := chains[index];
      EntriesAppend(ns, node);
      PlacedApart(chains, nodes, index);
      PlacedAdd(chains, nodes, index, node);
      if table[index] == null {
        OneNode(table[index], node, ns);
        table[index] := node;
      } else {
        LinkLast(table[index], node, ns);
      }
      nodes := nodes + {node};
      chains := chains[index := ns + [node]];
      PlacedApart(chains, nodes, index);
      ChainsKept(index);
    }

    /** hash_table_lookup. */
    method Lookup(key: Key) returns (r: Option<D>)
      requires Valid()
      ensures r == LookupIn(Buckets(), key)
    {
      var index := Hash(table.Length, key);
      var _, node := FindNode(table[index], key, chains[index]);
      r := if node == null then None else Some(node.data);
    }

    /** hash_table_remove; `freed` is what customfree is called on. */
    method Remove(key: Key) returns (ok: bool, freed: Option<D>)
      requires Valid()
      modifies this, table, nodes
      ensures Valid() && nodes == old(nodes)
      ensures Buckets() == RemoveFrom(old(Buckets()), key)
      ensures freed == LookupIn(old(Buckets()), key) && (ok <==> freed != None)
    {
      hide Clip, Index, Chain, Entries, FirstMatch, Placed, DropAt;
      var index := Hash(table.Length, key);
      ghost var ns := chains[index];
      var prev, node := FindNode(table[index], key, ns);
      if node == null {
        return false, None;
      }
      ghost var i := FirstMatch(Entries(ns), key);
      EntriesDrop(ns, i);
      PlacedApart(chains, nodes, index);
      PlacedDrop(chains, nodes, index, i);
      var first := Unlink(table[index], prev, node, ns, i);
      table[index] := first;
      chains := chains[index := DropAt(ns, i)];
      PlacedApart(chains, nodes, index);
      ChainsKept(index);
      ok, freed := true, Some(node.data);
    }

    /** hash_table_clear; `freed` is what customfree is called on, in order. */
    method Clear() returns (freed: seq<D>)
      requires Valid()
      modifies this, table
      ensures Valid() && nodes == old(nodes) && Buckets() == Emptied(|old(Buckets())|)
      ensures freed == AllValues(old(Buckets()))
    {
      hide Entries, Placed, Chain, AllValues;
      freed := [];
      ghost var cs := chains;
      ghost var was := Buckets();
      AllValuesStep(was, 0);
      for idx := 0 to table.Length
        invariant table.Length == |cs| && chains == cs && nodes == old(nodes)
        invariant forall b :: idx <= b < |cs| ==> Chain(table[b], cs[b])
        invariant forall b :: 0 <= b < idx ==> table[b] == null
        invariant freed == AllValues(was[..idx])
      {
        var data := ChainData(table[idx], cs[idx]);
        AllValuesStep(was, idx);
        freed := freed + data;
        table[idx] := null;
      }
      assert was[..table.Length] == was;
      chains := seq(table.Length, _ => []);
      NothingPlaced(chains, nodes);
      EmptyChain<D>();
      NoEntries<D>();
    }
  }

  /** hash_table_init: no table of size 0. */
  method Init<D>(size: nat) returns (table: Table?<D>)
    ensures size == 0 <==> table == null
    ensures table != null ==> fresh(table) && fresh(table.table) && fresh(table.nodes)
    ensures table != null ==> table.Valid() && table.Buckets() == Emptied(size)
  {
    if size == 0 {
      return null;
    }
    table := new Table(size);
  }

  lemma EmptyChain<D>()
    ensures Chain<D>(null, [])
  {
  }

  lemma NoEntries<D>()
    ensures Entries<D>([]) == []
  {
  }

  lemma NothingPlaced<D>(chains: seq<seq<Node<D>>>, nodes: set<Node<D>>)
    requires |chains| > 0 && forall b :: 0 <= b < |chains| ==> chains[b] == []
    ensures Placed(chains, nodes)
  {
  }

  /** The data of all buckets in turn. */
  ghost function AllValues<D>(b: seq<seq<Entry<D>>>): seq<D> {
    if |b| == 0 then []
    else
      var last := b[|b| - 1];
      AllValues(b[..|b| - 1]) + seq(|last|, i requires 0 <= i < |last| => last[i].value)
  }

  lemma AllValuesStep<D>(b: seq<seq<Entry<D>>>, n: nat)
    requires n < |b|
    ensures AllValues(b[..0]) == []
    ensures AllValues(b[..n + 1]) == AllValues(b[..n]) + seq(|b[n]|, i requires 0 <= i < |b[n]| => b[n][i].value)
  {
    assert b[..n + 1][..n] == b[..n];
  }

  /** Lines 324-332: the nodes of one chain are freed in order. */
  method ChainData<D>(head: Node?<D>, ghost ns: seq<Node<D>>) returns (data: seq<D>)
    requires Chain(head, ns)
    ensures data == seq(|ns|, i requires 0 <= i < |ns| => Entries(ns)[i].value)
  {
    data := [];
    var node := head;
    ghost var i := 0;
    while node != null
      invariant 0 <= i <= |ns| == |Entries(ns)| && node == (if i == |ns| then null else ns[i])
      invariant |data| == i && forall j :: 0 <= j < i ==> data[j] == Entries(ns)[j].value
      decreases |ns| - i
    {
      assert node.next == if i == |ns| - 1 then null else ns[i + 1];
      data := data + [node.data];
      node := node.next;
      i := i + 1;
    }
  }
}
