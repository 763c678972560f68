/**
 The order in which a traversal finds nodes. Edges are examined node by node in the order of
 acting, and within a node in the order of its list; a node is found at the first edge that
 leads to it.
 */
module Discovery {
  import opened Common

  type Vertex = nat
  type Graph = map<Vertex, seq<Vertex>>

  /** Edge number e of the node acted on as number k. */
  datatype Place = Place(k: nat, e: nat)

  predicate Before(p: Place, q: Place) {
    p.k < q.k || (p.k == q.k && p.e < q.e)
  }

  ghost predicate Leads(g: Graph, acted: seq<Vertex>, p: Place, v: Vertex) {
    p.k < |acted| && acted[p.k] in g && p.e < |g[acted[p.k]]| && g[acted[p.k]][p.e] == v
  }

  /** p is the first edge that leads to v. */
  ghost predicate First(g: Graph, acted: seq<Vertex>, p: Place, v: Vertex) {
    Leads(g, acted, p, v) && forall q :: Leads(g, acted, q, v) ==> !Before(q, p)
  }

  lemma FirstIsUnique(g: Graph, acted: seq<Vertex>, p: Place, q: Place, v: Vertex)
    requires First(g, acted, p, v) && First(g, acted, q, v)
    ensures p == q
  {
  }

  /** Every node but the start is acted on after the node that leads to it first. */
  ghost predicate FoundEarlier(g: Graph, acted: seq<Vertex>) {
    forall j :: 1 <= j < |acted| ==> FoundBefore(g, acted, j)
  }

  ghost predicate FoundBefore(g: Graph, acted: seq<Vertex>, j: nat)
    requires j < |acted|
  {
    exists p :: First(g, acted, p, acted[j]) && p.k < j
  }

  /** First found, first acted on. */
  ghost predicate FirstInFirstOut(g: Graph, acted: seq<Vertex>) {
    forall i, j, p, q ::
      1 <= i < j < |acted| && First(g, acted, p, acted[i]) && First(g, acted, q, acted[j]) ==> Before(p, q)
  }

  /** Last found, first acted on: what is acted on later was found later, or was already waiting underneath. */
  ghost predicate LastInFirstOut(g: Graph, acted: seq<Vertex>) {
    forall i, j, p, q ::
      0 <= i < j < |acted| && First(g, acted, p, acted[i]) && First(g, acted, q, acted[j]) ==> q.k >= i || Before(q, p)
  }

  // ----- the search in progress -----

  /** Visited node number p was found at at[p]; the start, number 0, was given. */
  ghost predicate FoundAt(g: Graph, acted: seq<Vertex>, visited: seq<Vertex>, at: seq<Place>) {
    && |at| == |visited| > 0
    && (forall p :: 1 <= p < |at| ==> First(g, acted, at[p], visited[p]))
    && (forall p, q :: 1 <= p < q < |at| ==> Before(at[p], at[q]))
  }

  /** Exactly the edges before `next` have been examined. */
  ghost predicate Examined(g: Graph, acted: seq<Vertex>, next: Place, visited: seq<Vertex>, at: seq<Place>) {
    && (forall p :: 1 <= p < |at| ==> Before(at[p], next))
    && (forall q, v :: Leads(g, acted, q, v) && Before(q, next) ==> v in visited)
  }

  ghost predicate Search(g: Graph, acted: seq<Vertex>, next: Place, visited: seq<Vertex>, at: seq<Place>) {
    FoundAt(g, acted, visited, at) && Examined(g, acted, next, visited, at)
  }

  lemma StartSearch(g: Graph, start: Vertex)
    ensures Search(g, [], Place(0, 0), [start], [Place(0, 0)])
  {
  }

  /** The next node is acted on; its edges are next. */
  lemma ActOn(g: Graph, acted: seq<Vertex>, visited: seq<Vertex>, at: seq<Place>, v: Vertex)
    requires Search(g, acted, Place(|acted|, 0), visited, at)
    ensures Search(g, acted + [v], Place(|acted|, 0), visited, at)
  {
    var acted' := acted + [v];
    assert forall q, w :: Leads(g, acted', q, w) && q.k < |acted| ==> Leads(g, acted, q, w);
    assert forall q, w :: Leads(g, acted, q, w) ==> Leads(g, acted', q, w);
  }

  /** An edge that leads to a visited node. */
  lemma Pass(g: Graph, acted: seq<Vertex>, e: nat, visited: seq<Vertex>, at: seq<Place>)
    requires |acted| > 0 && acted[|acted| - 1] in g && e < |g[acted[|acted| - 1]]|
    requires Search(g, acted, Place(|acted| - 1, e), visited, at) && g[acted[|acted| - 1]][e] in visited
    ensures Search(g, acted, Place(|acted| - 1, e + 1), visited, at)
  {
  }

  /** An edge that leads to a node not visited yet. */
  lemma Find(g: Graph, acted: seq<Vertex>, e: nat, visited: seq<Vertex>, at: seq<Place>, w: Vertex)
    requires |acted| > 0 && acted[|acted| - 1] in g && e < |g[acted[|acted| - 1]]|
    requires Search(g, acted, Place(|acted| - 1, e), visited, at) && g[acted[|acted| - 1]][e] == w && w !in visited
    ensures Search(g, acted, Place(|acted| - 1, e + 1), visited + [w], at + [Place(|acted| - 1, e)])
  {
    var p := Place(|acted| - 1, e);
    assert Leads(g, acted, p, w);
    assert First(g, acted, p, w);
  }

  /** All edges of the last node are done. */
  lemma EdgesDone(g: Graph, acted: seq<Vertex>, visited: seq<Vertex>, at: seq<Place>)
    requires |acted| > 0 && acted[|acted| - 1] in g
    requires Search(g, acted, Place(|acted| - 1, |g[acted[|acted| - 1]]|), visited, at)
    ensures Search(g, acted, Place(|acted|, 0), visited, at)
  {
  }

  // ----- a queue -----

  /** When the nodes are acted on in the order of finding. */
  lemma QueueOrder(g: Graph, acted: seq<Vertex>, at: seq<Place>)
    requires FoundAt(g, acted, acted, at) && forall p :: 1 <= p < |at| ==> at[p].k < p
    ensures FoundEarlier(g, acted) && FirstInFirstOut(g, acted)
  {
    hide First;
    forall j | 1 <= j < |acted|
      ensures FoundBefore(g, acted, j)
    {
      assert First(g, acted, at[j], acted[j]) && at[j].k < j;
    }
    forall i, j, p, q |
      1 <= i < j < |acted| && First(g, acted, p, acted[i]) && First(g, acted, q, acted[j])
      ensures Before(p, q)
    {
      FirstIsUnique(g, acted, p, at[i], acted[i]);
      FirstIsUnique(g, acted, q, at[j], acted[j]);
    }
  }

  // ----- a stack -----

  /**
   The nodes acted on and those stacked, by their numbers in the order of finding: a node that
   is acted on or waiting, seen from a node acted on before it, was found later or lay under it.
   */
  ghost predicate Stacked(visited: seq<Vertex>, at: seq<Place>, acted: seq<Vertex>, ap: seq<nat>,
                          stack: seq<Vertex>, sp: seq<nat>) {
    && |at| == |visited| && |ap| == |acted| && |sp| == |stack|
    && (forall i :: 0 <= i < |ap| ==> ap[i] < |visited| && visited[ap[i]] == acted[i])
    && (forall a :: 0 <= a < |sp| ==> sp[a] < |visited| && visited[sp[a]] == stack[a])
    && (forall a, b :: 0 <= a < b < |sp| ==> sp[a] < sp[b])
    && (forall i, j :: 0 <= i < j < |ap| ==> at[ap[j]].k >= i || ap[j] < ap[i])
    && (forall i, a :: 0 <= i < |ap| && 0 <= a < |sp| ==> at[sp[a]].k >= i || sp[a] < ap[i])
    && (if acted == [] then sp == [0] else ap[0] == 0 && forall a :: 0 <= a < |sp| ==> sp[a] >= 1)
  }

  lemma Popped(visited: seq<Vertex>, at: seq<Place>, acted: seq<Vertex>, ap: seq<nat>, stack: seq<Vertex>, sp: seq<nat>)
    requires Stacked(visited, at, acted, ap, stack, sp) && |stack| > 0
    ensures var n := |stack| - 1; Stacked(visited, at, acted + [stack[n]], ap + [sp[n]], stack[..n], sp[..n])
  {
  }

  lemma Pushed(visited: seq<Vertex>, at: seq<Place>, acted: seq<Vertex>, ap: seq<nat>, stack: seq<Vertex>, sp: seq<nat>,
               w: Vertex, e: nat)
    requires Stacked(visited, at, acted, ap, stack, sp) && |acted| > 0
    ensures Stacked(visited + [w], at + [Place(|acted| - 1, e)], acted, ap, stack + [w], sp + [|visited|])
  {
  }

  /** When the nodes are acted on from the top of a stack. */
  lemma StackOrder(g: Graph, acted: seq<Vertex>, visited: seq<Vertex>, at: seq<Place>, ap: seq<nat>,
                   stack: seq<Vertex>, sp: seq<nat>)
    requires FoundAt(g, acted, visited, at) && Stacked(visited, at, acted, ap, stack, sp) && Distinct(acted)
    ensures LastInFirstOut(g, acted)
  {
    hide First;
    forall i, j, p, q |
      0 <= i < j < |acted| && First(g, acted, p, acted[i]) && First(g, acted, q, acted[j])
      ensures q.k >= i || Before(q, p)
    {
      assert acted[0] != acted[j] && ap[j] != 0;
      FirstIsUnique(g, acted, q, at[ap[j]], acted[j]);
      if ap[j] < ap[i] {
        FirstIsUnique(g, acted, p, at[ap[i]], acted[i]);
      }
    }
  }

  /** A node is popped after the node that leads to it first. */
  ghost predicate FoundBelow(at: seq<Place>, ap: seq<nat>) {
    forall j :: 1 <= j < |ap| ==> ap[j] < |at| && at[ap[j]].k < j
  }

  lemma StackFinds(g: Graph, acted: seq<Vertex>, visited: seq<Vertex>, at: seq<Place>, ap: seq<nat>,
                   stack: seq<Vertex>, sp: seq<nat>)
    requires FoundAt(g, acted, visited, at) && Stacked(visited, at, acted, ap, stack, sp) && Distinct(acted)
    requires FoundBelow(at, ap)
    ensures FoundEarlier(g, acted)
  {
    hide First;
    forall j | 1 <= j < |acted|
      ensures FoundBefore(g, acted, j)
    {
      assert acted[0] != acted[j] && ap[j] != 0;
      assert First(g, acted, at[ap[j]], acted[j]);
    }
  }
}
