/**
 Breadth-first and depth-first traversal of adjacency_list.c over a well-formed graph: the
 successors of a node are the second endpoints of the edges in its list, in list order.
 */
module GraphTraversal {
  import opened Common
  import opened Discovery

  /** Every edge leads to a node of the graph. */
  ghost predicate WellFormed(g: Graph) {
    forall u, w :: u in g && w in g[u] ==> w in g
  }

  // ----- reachability, the reference -----

  /** Some walk of exactly n edges leads from s to v. */
  ghost predicate Walk(g: Graph, s: Vertex, v: Vertex, n: nat)
    decreases n
  {
    if n == 0 then v == s
    else exists u :: u in g && Walk(g, s, u, n - 1) && v in g[u]
  }

  ghost predicate Reachable(g: Graph, s: Vertex, v: Vertex) {
    exists n: nat :: Walk(g, s, v, n)
  }

  lemma WalkExtends(g: Graph, s: Vertex, u: Vertex, w: Vertex, n: nat)
    requires u in g && Walk(g, s, u, n) && w in g[u]
    ensures Walk(g, s, w, n + 1)
  {
  }

  ghost function ReachableSet(g: Graph, s: Vertex): set<Vertex> {
    set v | v in g && Reachable(g, s, v)
  }

  /** A distinct sequence of members of a set is no longer than the set. */
  lemma {:induction false} DistinctFits(s: seq<Vertex>, dom: set<Vertex>)
    requires Distinct(s) && forall v :: v in s ==> v in dom
    ensures |s| <= |dom|
    decreases |s|
  {
    if |s| > 0 {
      var n := |s| - 1;
      var rest := dom - {s[n]};
      forall v | v in s[..n]
        ensures v in rest
      {
        var i :| 0 <= i < n && s[i] == v;
      }
      DistinctFits(s[..n], rest);
    }
  }

  /** A set of visited nodes that holds s and every successor of its members holds all that is reachable. */
  lemma {:induction false} ClosedHoldsAll(g: Graph, s: Vertex, seen: seq<Vertex>, v: Vertex, n: nat)
    requires s in seen && (forall u, w :: u in seen && u in g && w in g[u] ==> w in seen)
    requires Walk(g, s, v, n)
    ensures v in seen
    decreases n
  {
    if n > 0 {
      var u :| u in g && Walk(g, s, u, n - 1) && v in g[u];
      ClosedHoldsAll(g, s, seen, u, n - 1);
    }
  }

  // ----- breadth first -----

  /** u is no farther from s than v: every walk to v is matched by one to u that is as short. */
  ghost predicate AsNear(g: Graph, s: Vertex, u: Vertex, v: Vertex) {
    forall n: nat :: Walk(g, s, v, n) ==> exists m: nat :: m <= n && Walk(g, s, u, m)
  }

  ghost predicate NearerFirst(g: Graph, s: Vertex, acted: seq<Vertex>) {
    forall i, j :: 0 <= i < j < |acted| ==> AsNear(g, s, acted[i], acted[j])
  }

  /** `level` numbers the visited nodes: a walk of that length exists, and it never jumps. */
  ghost predicate Levels(g: Graph, s: Vertex, seen: seq<Vertex>, level: map<Vertex, nat>) {
    && (forall v :: v in seen ==> v in level && Walk(g, s, v, level[v]))
    && (forall i, j :: 0 <= i < j < |seen| ==> level[seen[i]] <= level[seen[j]])
  }

  /** Nodes whose edges have all been followed lead to visited nodes at most one level on. */
  ghost predicate Expanded(g: Graph, done: seq<Vertex>, seen: seq<Vertex>, level: map<Vertex, nat>) {
    forall u, w :: u in done && u in g && w in g[u] ==>
      w in seen && u in level && w in level && level[w] <= level[u] + 1
  }

  lemma {:induction false} LevelsAreShortest(g: Graph, s: Vertex, seen: seq<Vertex>, level: map<Vertex, nat>,
                                             v: Vertex, n: nat)
    requires s in seen && Levels(g, s, seen, level) && level[s] == 0 && Expanded(g, seen, seen, level)
    requires Walk(g, s, v, n)
    ensures v in seen && level[v] <= n
    decreases n
  {
    if n > 0 {
      var u :| u in g && Walk(g, s, u, n - 1) && v in g[u];
      LevelsAreShortest(g, s, seen, level, u, n - 1);
    }
  }

  /** What holds while the edges of `current` are followed; `e` of them are done. */
  ghost predicate Expanding(g: Graph, s: Vertex, done: seq<Vertex>, current: Vertex, e: nat,
                            seen: seq<Vertex>, level: map<Vertex, nat>) {
    && current in g && e <= |g[current]| && current in seen && s in seen && (forall u :: u in done ==> u in seen)
    && Distinct(seen) && (forall v :: v in seen ==> v in g)
    && Levels(g, s, seen, level) && level[s] == 0
    && level[seen[|seen| - 1]] <= level[current] + 1
    && Expanded(g, done, seen, level)
    && forall k :: 0 <= k < e ==> g[current][k] in seen
  }

  /** bfs_visit_node on a node not seen before. */
  lemma VisitKeeps(g: Graph, s: Vertex, done: seq<Vertex>, current: Vertex, e: nat,
                   seen: seq<Vertex>, level: map<Vertex, nat>, w: Vertex)
    requires WellFormed(g) && Expanding(g, s, done, current, e, seen, level)
    requires e < |g[current]| && w == g[current][e] && w !in seen
    ensures Expanding(g, s, done, current, e + 1, seen + [w], level[w := level[current] + 1])
  {
    var n := level[current] + 1;
    assert Walk(g, s, w, n) by {
      WalkExtends(g, s, current, w, level[current]);
    }
    LevelsExtended(g, s, seen, level, w, n);
    ExpandedExtended(g, done, seen, level, w, n);
    hide Levels, Expanded, Walk;
    forall k | 0 <= k < e + 1
      ensures g[current][k] in seen + [w]
    {
    }
  }

  lemma LevelsExtended(g: Graph, s: Vertex, seen: seq<Vertex>, level: map<Vertex, nat>, w: Vertex, n: nat)
    requires Levels(g, s, seen, level) && w !in seen && |seen| > 0 && level[seen[|seen| - 1]] <= n && Walk(g, s, w, n)
    ensures Levels(g, s, seen + [w], level[w := n])
  {
    var seen', level' := seen + [w], level[w := n];
    hide Walk;
    forall i, j | 0 <= i < j < |seen'|
      ensures level'[seen'[i]] <= level'[seen'[j]]
    {
      assert seen'[i] == seen[i] && seen[i] in seen;
      if j < |seen| {
        assert seen'[j] == seen[j] && seen[j] in seen;
      } else {
        assert i < |seen| - 1 ==> level[seen[i]] <= level[seen[|seen| - 1]];
      }
    }
  }

  lemma ExpandedExtended(g: Graph, done: seq<Vertex>, seen: seq<Vertex>, level: map<Vertex, nat>, w: Vertex, n: nat)
    requires Expanded(g, done, seen, level) && w !in seen && forall u :: u in done ==> u in seen
    ensures Expanded(g, done, seen + [w], level[w := n])
  {
  }

  /** Once every edge of `current` is done it counts as expanded. */
  lemma ExpandedAll(g: Graph, s: Vertex, done: seq<Vertex>, current: Vertex, seen: seq<Vertex>, level: map<Vertex, nat>)
    requires current in g && Expanding(g, s, done, current, |g[current]|, seen, level)
    ensures Expanded(g, done + [current], seen, level)
  {
    forall w | w in g[current]
      ensures w in seen && level[w] <= level[current] + 1
    {
      var k :| 0 <= k < |g[current]| && g[current][k] == w;
      var i :| 0 <= i < |seen| && seen[i] == w;
      assert i < |seen| - 1 ==> level[seen[i]] <= level[seen[|seen| - 1]];
    }
  }

  /** Lines 731-747: the edges of one node. */
  method FollowEdges(g: Graph, ghost s: Vertex, ghost done: seq<Vertex>, current: Vertex,
                     queue: seq<Vertex>, visited: seq<Vertex>, ghost level: map<Vertex, nat>, ghost at: seq<Place>)
    returns (queue': seq<Vertex>, visited': seq<Vertex>, ghost level': map<Vertex, nat>, ghost at': seq<Place>)
    requires WellFormed(g) && visited == done + [current] + queue
    requires Expanding(g, s, done, current, 0, visited, level)
    requires Search(g, done + [current], Place(|done|, 0), visited, at) && QueuedLater(at)
    ensures visited' == done + [current] + queue'
    ensures Expanding(g, s, done, current, |g[current]|, visited', level')
    ensures Expanded(g, done + [current], visited', level')
    ensures Search(g, done + [current], Place(|done| + 1, 0), visited', at') && QueuedLater(at')
  {
    hide Expanding, Expanded, Levels, Search;
    queue', visited', level', at' := queue, visited, level, at;
    ghost var acted := done + [current];
    CurrentInGraph(g, s, done, current, 0, visited, level);
    var edges := g[current];
    for e := 0 to |edges|
      invariant visited' == done + [current] + queue'
      invariant Expanding(g, s, done, current, e, visited', level')
      invariant Search(g, acted, Place(|done|, e), visited', at') && QueuedLater(at')
    {
      var neighbor := edges[e];
      CurrentInGraph(g, s, done, current, e, visited', level');
      if neighbor !in visited' {
        VisitKeeps(g, s, done, current, e, visited', level', neighbor);
        SearchLength(g, acted, Place(|done|, e), visited', at');
        Find(g, acted, e, visited', at', neighbor);
        at' := at' + [Place(|done|, e)];
        queue' := queue' + [neighbor];
        visited' := visited' + [neighbor];
        level' := level'[neighbor := level'[current] + 1];
      } else {
        SkipKeeps(g, s, done, current, e, visited', level');
        Pass(g, acted, e, visited', at');
      }
    }
    EdgesDone(g, acted, visited', at');
    ExpandedAll(g, s, done, current, visited', level');
  }

  /** A node joins the queue behind the one that leads to it. */
  ghost predicate QueuedLater(at: seq<Place>) {
    forall p :: 1 <= p < |at| ==> at[p].k < p
  }

  lemma SearchLength(g: Graph, acted: seq<Vertex>, next: Place, visited: seq<Vertex>, at: seq<Place>)
    requires Search(g, acted, next, visited, at)
    ensures |at| == |visited|
  {
  }

  lemma CurrentInGraph(g: Graph, s: Vertex, done: seq<Vertex>, current: Vertex, e: nat, seen: seq<Vertex>,
                       level: map<Vertex, nat>)
    requires Expanding(g, s, done, current, e, seen, level)
    ensures current in g && current in level
  {
  }

  lemma SkipKeeps(g: Graph, s: Vertex, done: seq<Vertex>, current: Vertex, e: nat, seen: seq<Vertex>,
                  level: map<Vertex, nat>)
    requires Expanding(g, s, done, current, e, seen, level) && e < |g[current]| && g[current][e] in seen
    ensures Expanding(g, s, done, current, e + 1, seen, level)
  {
  }

  /** What holds between two nodes of the queue. */
  ghost predicate Between(g: Graph, s: Vertex, acted: seq<Vertex>, queue: seq<Vertex>, visited: seq<Vertex>,
                          level: map<Vertex, nat>) {
    && visited == acted + queue && s in visited && Distinct(visited) && (forall v :: v in visited ==> v in g)
    && Levels(g, s, visited, level) && level[s] == 0
    && Expanded(g, acted, visited, level)
    && (queue != [] ==> level[visited[|visited| - 1]] <= level[queue[0]] + 1)
  }

  lemma StartExpanding(g: Graph, s: Vertex, acted: seq<Vertex>, queue: seq<Vertex>, visited: seq<Vertex>,
                       level: map<Vertex, nat>)
    requires Between(g, s, acted, queue, visited, level) && queue != []
    ensures visited == acted + [queue[0]] + queue[1..]
    ensures Expanding(g, s, acted, queue[0], 0, visited, level)
  {
    assert visited[|acted|] == queue[0];
  }

  lemma FinishExpanding(g: Graph, s: Vertex, done: seq<Vertex>, current: Vertex, queue: seq<Vertex>,
                        visited: seq<Vertex>, level: map<Vertex, nat>)
    requires visited == done + [current] + queue && current in g
    requires Expanding(g, s, done, current, |g[current]|, visited, level)
    requires Expanded(g, done + [current], visited, level)
    ensures Between(g, s, done + [current], queue, visited, level)
  {
    if queue != [] {
      var i := |done|;
      assert visited[i] == current && visited[i + 1] == queue[0];
    }
  }

  lemma FinishedOrder(g: Graph, s: Vertex, acted: seq<Vertex>, level: map<Vertex, nat>)
    requires Between(g, s, acted, [], acted, level)
    ensures forall v :: v in acted <==> Reachable(g, s, v)
    ensures NearerFirst(g, s, acted)
  {
    assert acted + [] == acted;
    forall v | Reachable(g, s, v)
      ensures v in acted
    {
      var n: nat :| Walk(g, s, v, n);
      LevelsAreShortest(g, s, acted, level, v, n);
    }
    forall i, j | 0 <= i < j < |acted|
      ensures AsNear(g, s, acted[i], acted[j])
    {
      LevelOrder(g, s, acted, level, i, j);
    }
  }

  lemma LevelOrder(g: Graph, s: Vertex, acted: seq<Vertex>, level: map<Vertex, nat>, i: nat, j: nat)
    requires Between(g, s, acted, [], acted, level) && i < j < |acted|
    ensures AsNear(g, s, acted[i], acted[j])
  {
    var u := acted[i];
    assert u in acted && acted[j] in acted;
    assert Walk(g, s, u, level[u]) && level[u] <= level[acted[j]];
    assert acted + [] == acted;
    hide Walk;
    forall n: nat | Walk(g, s, acted[j], n)
      ensures exists m: nat :: m <= n && Walk(g, s, u, m)
    {
      LevelsAreShortest(g, s, acted, level, acted[j], n);
    }
  }

  /**
   traverse_bfs: the action runs once on every reachable node and on no other, nearer nodes
   first. The visited list always is what was acted on followed by what is queued.
   */
  method Bfs(g: Graph, start: Vertex) returns (acted: seq<Vertex>)
    requires WellFormed(g) && start in g
    ensures Distinct(acted)
    ensures forall v :: v in acted <==> Reachable(g, start, v)
    ensures NearerFirst(g, start, acted)
    ensures acted != [] && acted[0] == start && FoundEarlier(g, acted) && FirstInFirstOut(g, acted)
  {
    var queue, visited := [start], [start];
    acted := [];
    ghost var level: map<Vertex, nat> := map[start := 0];
    assert Between(g, start, acted, queue, visited, level);
    ghost var at := [Place(0, 0)];
    StartSearch(g, start);
    hide Expanding, Expanded, Levels, Walk, Reachable, NearerFirst, Search;
    while queue != []
      invariant Between(g, start, acted, queue, visited, level) && visited[0] == start
      invariant Search(g, acted, Place(|acted|, 0), visited, at) && QueuedLater(at)
      decreases |g.Keys| - |acted|
    {
      var current := queue[0];
      StartExpanding(g, start, acted, queue, visited, level);
      ActOn(g, acted, visited, at, current);
      queue, visited, level, at := FollowEdges(g, start, acted, current, queue[1..], visited, level, at);
      FinishExpanding(g, start, acted, current, queue, visited, level);
      acted := acted + [current];
      assert Between(g, start, acted, queue, visited, level);
      DistinctFits(visited, g.Keys);
    }
    assert visited == acted;
    FinishedOrder(g, start, acted, level);
    SearchFound(g, acted, Place(|acted|, 0), visited, at);
    QueueOrder(g, acted, at);
  }

  lemma SearchFound(g: Graph, acted: seq<Vertex>, next: Place, visited: seq<Vertex>, at: seq<Place>)
    requires Search(g, acted, next, visited, at)
    ensures FoundAt(g, acted, visited, at)
  {
  }

  // ----- depth first -----

  const MAX_STACK_SIZE: nat := 2000

  /** The visited nodes are those acted on and those stacked, all different and all reachable. */
  ghost predicate Tracked(g: Graph, s: Vertex, acted: seq<Vertex>, stack: seq<Vertex>, visited: seq<Vertex>) {
    && s in visited && Distinct(acted + stack)
    && (forall v :: v in visited <==> v in acted || v in stack)
    && (forall v :: v in visited ==> v in g && Reachable(g, s, v))
  }

  ghost predicate SuccessorsSeen(g: Graph, done: seq<Vertex>, seen: seq<Vertex>) {
    forall u, w :: u in done && u in g && w in g[u] ==> w in seen
  }

  lemma ReachableExtends(g: Graph, s: Vertex, u: Vertex, w: Vertex)
    requires u in g && Reachable(g, s, u) && w in g[u]
    ensures Reachable(g, s, w)
  {
    var n: nat :| Walk(g, s, u, n);
    WalkExtends(g, s, u, w, n);
  }

  /** Popping the top of the stack and acting on it. */
  lemma PopKeeps(g: Graph, s: Vertex, acted: seq<Vertex>, stack: seq<Vertex>, visited: seq<Vertex>)
    requires Tracked(g, s, acted, stack, visited) && |stack| > 0
    ensures var n := |stack| - 1; Tracked(g, s, acted + [stack[n]], stack[..n], visited)
    ensures stack[|stack| - 1] in visited && stack[|stack| - 1] in g
  {
    var n := |stack| - 1;
    var top, rest := stack[n], stack[..n];
    hide Reachable;
    assert stack == rest + [top];
    assert top in stack;
    forall i, j | 0 <= i < j < |acted + [top] + rest|
      ensures (acted + [top] + rest)[i] != (acted + [top] + rest)[j]
    {
      var m, all := |acted|, acted + stack;
      assert i < m ==> (acted + [top] + rest)[i] == all[i];
      assert i > m ==> (acted + [top] + rest)[i] == all[i - 1];
      assert j < m ==> (acted + [top] + rest)[j] == all[j];
      assert j > m ==> (acted + [top] + rest)[j] == all[j - 1];
      assert all[m + n] == top;
    }
  }

  lemma PushKeeps(g: Graph, s: Vertex, acted: seq<Vertex>, stack: seq<Vertex>, visited: seq<Vertex>, u: Vertex,
                  w: Vertex)
    requires WellFormed(g) && Tracked(g, s, acted, stack, visited) && u in visited && w in g[u] && w !in visited
    ensures Tracked(g, s, acted, stack + [w], visited + [w])
  {
    ReachableExtends(g, s, u, w);
    hide Reachable;
    assert acted + (stack + [w]) == (acted + stack) + [w];
    assert w !in acted + stack;
  }

  /** A full stack means more reachable nodes than the stack, the current node and the new one. */
  lemma FullStack(g: Graph, s: Vertex, acted: seq<Vertex>, stack: seq<Vertex>, visited: seq<Vertex>, u: Vertex,
                  w: Vertex)
    requires WellFormed(g) && Tracked(g, s, acted, stack, visited) && u in visited && w in g[u] && w !in visited
    requires |acted| > 0
    ensures |ReachableSet(g, s)| >= |stack| + 2
  {
    PushKeeps(g, s, acted, stack, visited, u, w);
    DistinctFits(acted + (stack + [w]), ReachableSet(g, s));
  }

  lemma DfsFinished(g: Graph, s: Vertex, acted: seq<Vertex>, visited: seq<Vertex>)
    requires Tracked(g, s, acted, [], visited) && SuccessorsSeen(g, acted, visited)
    ensures Distinct(acted) && forall v :: v in acted <==> Reachable(g, s, v)
  {
    assert acted + [] == acted;
    forall v | Reachable(g, s, v)
      ensures v in acted
    {
      var n: nat :| Walk(g, s, v, n);
      ClosedHoldsAll(g, s, acted, v, n);
    }
  }

  /** The order of finding and of stacking, while edge `next` is examined. */
  ghost predicate Ordered(g: Graph, acted: seq<Vertex>, next: Place, visited: seq<Vertex>, stack: seq<Vertex>,
                          o: Order) {
    Search(g, acted, next, visited, o.at) && Stacked(visited, o.at, acted, o.ap, stack, o.sp) && FoundBelow(o.at, o.ap)
  }

  /** Where visited nodes were found, and the numbers of those acted on and of those stacked. */
  datatype Order = Order(at: seq<Place>, ap: seq<nat>, sp: seq<nat>)

  lemma OrderedPop(g: Graph, acted: seq<Vertex>, visited: seq<Vertex>, stack: seq<Vertex>, o: Order) returns (o': Order)
    requires Ordered(g, acted, Place(|acted|, 0), visited, stack, o) && |stack| > 0
    ensures var n := |stack| - 1; Ordered(g, acted + [stack[n]], Place(|acted|, 0), visited, stack[..n], o')
  {
    hide First, Leads;
    var n := |stack| - 1;
    o' := Order(o.at, o.ap + [o.sp[n]], o.sp[..n]);
    ActOn(g, acted, visited, o.at, stack[n]);
    Popped(visited, o.at, acted, o.ap, stack, o.sp);
  }

  lemma OrderedPush(g: Graph, acted: seq<Vertex>, e: nat, visited: seq<Vertex>, stack: seq<Vertex>, o: Order, w: Vertex)
    returns (o': Order)
    requires |acted| > 0 && acted[|acted| - 1] in g && e < |g[acted[|acted| - 1]]|
    requires Ordered(g, acted, Place(|acted| - 1, e), visited, stack, o)
    requires g[acted[|acted| - 1]][e] == w && w !in visited
    ensures Ordered(g, acted, Place(|acted| - 1, e + 1), visited + [w], stack + [w], o')
  {
    hide First, Leads;
    o' := Order(o.at + [Place(|acted| - 1, e)], o.ap, o.sp + [|visited|]);
    Find(g, acted, e, visited, o.at, w);
    Pushed(visited, o.at, acted, o.ap, stack, o.sp, w, e);
  }

  lemma OrderedPass(g: Graph, acted: seq<Vertex>, e: nat, visited: seq<Vertex>, stack: seq<Vertex>, o: Order)
    requires |acted| > 0 && acted[|acted| - 1] in g && e < |g[acted[|acted| - 1]]|
    requires Ordered(g, acted, Place(|acted| - 1, e), visited, stack, o) && g[acted[|acted| - 1]][e] in visited
    ensures Ordered(g, acted, Place(|acted| - 1, e + 1), visited, stack, o)
  {
    hide Search;
    Pass(g, acted, e, visited, o.at);
  }

  lemma OrderedDone(g: Graph, acted: seq<Vertex>, visited: seq<Vertex>, stack: seq<Vertex>, o: Order)
    requires |acted| > 0 && acted[|acted| - 1] in g
    requires Ordered(g, acted, Place(|acted| - 1, |g[acted[|acted| - 1]]|), visited, stack, o)
    ensures Ordered(g, acted, Place(|acted|, 0), visited, stack, o)
  {
    hide Search;
    EdgesDone(g, acted, visited, o.at);
  }

  lemma OrderedLaw(g: Graph, acted: seq<Vertex>, next: Place, visited: seq<Vertex>, stack: seq<Vertex>, o: Order)
    requires Ordered(g, acted, next, visited, stack, o) && Distinct(acted)
    ensures FoundEarlier(g, acted) && LastInFirstOut(g, acted)
  {
    StackOrder(g, acted, visited, o.at, o.ap, stack, o.sp);
    StackFinds(g, acted, visited, o.at, o.ap, stack, o.sp);
  }

  /** Lines 571-587: stacks the unseen successors of one node, or fails when the stack is full. */
  method StackEdges(g: Graph, ghost s: Vertex, ghost acted: seq<Vertex>, current: Vertex, stack: seq<Vertex>,
                    visited: seq<Vertex>, ghost o: Order)
    returns (ok: bool, stack': seq<Vertex>, visited': seq<Vertex>, ghost o': Order, ghost next: Place)
    requires WellFormed(g) && Tracked(g, s, acted, stack, visited) && current in g
    requires |acted| > 0 && acted[|acted| - 1] == current && |stack| <= MAX_STACK_SIZE
    requires Ordered(g, acted, Place(|acted| - 1, 0), visited, stack, o)
    ensures Tracked(g, s, acted, stack', visited') && |stack'| <= MAX_STACK_SIZE
    ensures forall v :: v in visited ==> v in visited'
    ensures ok ==> forall w :: w in g[current] ==> w in visited'
    ensures !ok ==> |ReachableSet(g, s)| >= MAX_STACK_SIZE + 2
    ensures Ordered(g, acted, next, visited', stack', o') && (ok ==> next == Place(|acted|, 0))
  {
    stack', visited', o' := stack, visited, o;
    var edges := g[current];
    for e := 0 to |edges|
      invariant Tracked(g, s, acted, stack', visited') && |stack'| <= MAX_STACK_SIZE
      invariant forall v :: v in visited ==> v in visited'
      invariant forall k :: 0 <= k < e ==> edges[k] in visited'
      invariant Ordered(g, acted, Place(|acted| - 1, e), visited', stack', o')
    {
      hide Reachable, ReachableSet, Ordered;
      var neighbor := edges[e];
      if neighbor !in visited' {
        if |stack'| == MAX_STACK_SIZE {
          FullStack(g, s, acted, stack', visited', current, neighbor);
          return false, stack', visited', o', Place(|acted| - 1, e);
        }
        PushKeeps(g, s, acted, stack', visited', current, neighbor);
        o' := OrderedPush(g, acted, e, visited', stack', o', neighbor);
        stack' := stack' + [neighbor];
        visited' := visited' + [neighbor];
      } else {
        OrderedPass(g, acted, e, visited', stack', o');
      }
    }
    OrderedDone(g, acted, visited', stack', o');
    next := Place(|acted|, 0);
    ok := true;
  }

  /** The successors of a node other than itself. */
  ghost function Others(g: Graph, u: Vertex): set<Vertex>
    requires u in g
  {
    set w | w in g[u] && w != u
  }

  ghost function Members(s: seq<Vertex>): set<Vertex> {
    set v | v in s
  }

  /** After the first node all its other successors are on the stack at once. */
  lemma OthersStacked(g: Graph, s: Vertex, acted: seq<Vertex>, stack: seq<Vertex>, visited: seq<Vertex>)
    requires s in g && Tracked(g, s, acted, stack, visited) && acted == [s]
    requires forall w :: w in g[s] ==> w in visited
    ensures |Others(g, s)| <= |stack|
  {
    hide Reachable;
    assert Others(g, s) <= Members(stack);
    SubsetSize(Others(g, s), Members(stack));
    MembersFit(stack);
  }

  lemma {:induction false} SubsetSize(a: set<Vertex>, b: set<Vertex>)
    requires a <= b
    ensures |a| <= |b|
    decreases |a|
  {
    if a != {} {
      var x :| x in a;
      SubsetSize(a - {x}, b - {x});
    }
  }

  lemma {:induction false} MembersFit(s: seq<Vertex>)
    ensures |Members(s)| <= |s|
    decreases |s|
  {
    if |s| > 0 {
      var n := |s| - 1;
      MembersFit(s[..n]);
      assert s == s[..n] + [s[n]];
      assert Members(s) <= Members(s[..n]) + {s[n]};
      SubsetSize(Members(s), Members(s[..n]) + {s[n]});
    }
  }

  /**
   traverse_dfs: when it succeeds the action has run once on every reachable node and on no
   other; it fails only if at least two more nodes are reachable than the stack can hold, and
   does fail if the start has more successors than that. In either case what it has acted on
   is in last-in first-out order.
   */
  method Dfs(g: Graph, start: Vertex) returns (ok: bool, acted: seq<Vertex>)
    requires WellFormed(g) && start in g
    ensures Distinct(acted) && forall v :: v in acted ==> Reachable(g, start, v)
    ensures ok ==> forall v :: v in acted <==> Reachable(g, start, v)
    ensures !ok ==> |ReachableSet(g, start)| >= MAX_STACK_SIZE + 2
    ensures |Others(g, start)| > MAX_STACK_SIZE ==> !ok
    ensures acted != [] && acted[0] == start && FoundEarlier(g, acted) && LastInFirstOut(g, acted)
  {
    var stack, visited := [start], [start];
    acted := [];
    assert Walk(g, start, start, 0);
    ghost var o, next := Order([Place(0, 0)], [], [0]), Place(0, 0);
    StartSearch(g, start);
    assert Ordered(g, acted, next, visited, stack, o);
    while stack != []
      invariant Tracked(g, start, acted, stack, visited) && |stack| <= MAX_STACK_SIZE
      invariant SuccessorsSeen(g, acted, visited)
      invariant if acted == [] then stack == [start] else acted[0] == start && |Others(g, start)| <= MAX_STACK_SIZE
      invariant next == Place(|acted|, 0) && Ordered(g, acted, next, visited, stack, o)
      decreases |g.Keys| - |acted|
    {
      hide Reachable, ReachableSet, Others, Ordered, FoundEarlier, LastInFirstOut;
      o := OrderedPop(g, acted, visited, stack, o);
      PopKeeps(g, start, acted, stack, visited);
      var current := stack[|stack| - 1];
      stack := stack[..|stack| - 1];
      ghost var before := acted;
      acted := acted + [current];
      ok, stack, visited, o, next := StackEdges(g, start, acted, current, stack, visited, o);
      ActedFits(g, start, acted, stack, visited);
      OrderedLaw(g, acted, next, visited, stack, o);
      if !ok {
        return;
      }
      if before == [] {
        OthersStacked(g, start, acted, stack, visited);
      }
      assert SuccessorsSeen(g, acted, visited);
    }
    ok := true;
    DfsFinished(g, start, acted, visited);
    OrderedLaw(g, acted, next, visited, stack, o);
  }

  lemma ActedFits(g: Graph, s: Vertex, acted: seq<Vertex>, stack: seq<Vertex>, visited: seq<Vertex>)
    requires Tracked(g, s, acted, stack, visited)
    ensures |acted| <= |g.Keys| && Distinct(acted) && forall v :: v in acted ==> Reachable(g, s, v)
  {
    forall i, j | 0 <= i < j < |acted|
      ensures acted[i] != acted[j]
    {
      assert (acted + stack)[i] == acted[i] && (acted + stack)[j] == acted[j];
    }
    DistinctFits(acted, g.Keys);
  }

  function Leaves(n: nat): (r: set<Vertex>)
    ensures |r| == n && forall w :: w in r <==> 1 <= w <= n
  {
    if n == 0 then {} else Leaves(n - 1) + {n}
  }

  /** A centre with edges to leaves 1 to n. */
  function Star(n: nat): (g: Graph)
    ensures WellFormed(g) && 0 in g && g[0] == seq(n, i => i + 1)
  {
    map v | v in Leaves(n) + {0} :: if v == 0 then seq(n, i => i + 1) else []
  }

  lemma StarLeaves(n: nat)
    ensures |Others(Star(n), 0)| == n && |ReachableSet(Star(n), 0)| <= n + 1
  {
    var leaves := Leaves(n);
    assert Others(Star(n), 0) == leaves by {
      forall w: nat
        ensures w in Others(Star(n), 0) <==> w in leaves
      {
        if w in leaves {
          assert Star(n)[0][w - 1] == w;
        }
      }
    }
    assert ReachableSet(Star(n), 0) <= leaves + {0};
    SubsetSize(ReachableSet(Star(n), 0), leaves + {0});
  }

  /** The bound is tight: a star of exactly 2002 nodes, all reachable, is too much for the stack. */
  method StarOverflows() returns (ok: bool, acted: seq<Vertex>)
    ensures !ok && |ReachableSet(Star(MAX_STACK_SIZE + 1), 0)| == MAX_STACK_SIZE + 2
  {
    hide Star, Others, ReachableSet;
    StarLeaves(MAX_STACK_SIZE + 1);
    ok, acted := Dfs(Star(MAX_STACK_SIZE + 1), 0);
  }
}
