/** Two independent cycle checks: a depth-first search for back edges, and Kahn's topological order. */
module Acyclicity {
  import opened Values
  import opened Graphs

  // ----- finite sets without a minimal element contain a cycle -----

  lemma {:induction false} Pigeonhole(s: set<Id>, p: seq<Id>) returns (i: nat, j: nat)
    requires |p| > |s| && forall k :: 0 <= k < |p| ==> p[k] in s
    ensures i < j < |p| && p[i] == p[j]
  {
    if p[0] in p[1..] {
      i := 0;
      j :| 1 <= j < |p| && p[j] == p[0];
    } else {
      i, j := Pigeonhole(s - {p[0]}, p[1..]);
      i, j := i + 1, j + 1;
    }
  }

  ghost predicate HasPredecessorIn(edges: seq<Edge>, s: set<Id>, x: Id) {
    exists y :: y in s && Edge(y, x) in edges
  }

  ghost predicate EachHasPredecessorIn(edges: seq<Edge>, s: set<Id>) {
    forall x {:trigger HasPredecessorIn(edges, s, x)} :: x in s ==> HasPredecessorIn(edges, s, x)
  }

  ghost predicate IsWalk(edges: seq<Edge>, p: seq<Id>) {
    forall i :: 0 <= i < |p| - 1 ==> Edge(p[i], p[i + 1]) in edges
  }

  lemma WalkExtends(edges: seq<Edge>, y: Id, p: seq<Id>)
    requires IsWalk(edges, p) && |p| > 0 && Edge(y, p[0]) in edges
    ensures IsWalk(edges, [y] + p)
  {
    var q := [y] + p;
    forall i | 0 <= i < |q| - 1
      ensures Edge(q[i], q[i + 1]) in edges
    {
      if i > 0 {
        assert Edge(p[i - 1], p[i - 1 + 1]) in edges;
      }
    }
  }

  lemma WalkSlice(edges: seq<Edge>, p: seq<Id>, i: nat, j: nat)
    requires IsWalk(edges, p) && i < j < |p|
    ensures PathBetween(edges, p[i..j + 1], p[i], p[j])
  {
    var q := p[i..j + 1];
    forall k | 0 <= k < |q| - 1
      ensures Edge(q[k], q[k + 1]) in edges
    {
      assert Edge(p[i + k], p[i + k + 1]) in edges;
    }
  }

  /** Walking backwards inside `s` can go on for any number of steps. */
  lemma {:induction false} BackwardWalk(edges: seq<Edge>, s: set<Id>, x: Id, n: nat) returns (p: seq<Id>)
    requires EachHasPredecessorIn(edges, s) && x in s
    ensures |p| == n + 1 && IsWalk(edges, p)
    ensures forall k :: 0 <= k < |p| ==> p[k] in s
  {
    if n == 0 {
      p := [x];
    } else {
      var rest := BackwardWalk(edges, s, x, n - 1);
      assert HasPredecessorIn(edges, s, rest[0]);
      var y :| y in s && Edge(y, rest[0]) in edges;
      WalkExtends(edges, y, rest);
      p := [y] + rest;
    }
  }

  lemma NoMinimumMeansCycle(edges: seq<Edge>, s: set<Id>)
    requires s != {} && EachHasPredecessorIn(edges, s)
    ensures !Acyclic(edges)
  {
    var x :| x in s;
    var p := BackwardWalk(edges, s, x, |s|);
    var i, j := Pigeonhole(s, p);
    WalkSlice(edges, p, i, j);
    assert Reaches(edges, p[i], p[i]);
  }

  /** In an acyclic graph every non-empty finite set of nodes has one with no predecessor inside the set. */
  lemma MinimumExists(edges: seq<Edge>, s: set<Id>) returns (x: Id)
    requires Acyclic(edges) && s != {}
    ensures x in s && forall y :: y in s ==> Edge(y, x) !in edges
  {
    if EachHasPredecessorIn(edges, s) {
      NoMinimumMeansCycle(edges, s);
    }
    x :| x in s && !HasPredecessorIn(edges, s, x);
  }

  // ----- depth-first cycle detection -----

  /** The node lies on a cycle or some path leads from it to one. */
  ghost predicate LeadsIntoCycle(edges: seq<Edge>, x: Id) {
    exists c :: Reaches(edges, c, c) && (x == c || Reaches(edges, x, c))
  }

  lemma EdgeIntoCycle(edges: seq<Edge>, a: Id, b: Id)
    requires Edge(a, b) in edges && LeadsIntoCycle(edges, b)
    ensures LeadsIntoCycle(edges, a)
  {
    var c :| Reaches(edges, c, c) && (b == c || Reaches(edges, b, c));
    EdgeReaches(edges, a, b);
    if b != c {
      ReachesTransitive(edges, a, b, c);
    }
  }

  /** A back edge closes a cycle, unless its target was left on the stack by an earlier one. */
  lemma BackEdge(edges: seq<Edge>, node: Id, neighbor: Id)
    requires Edge(node, neighbor) in edges
    requires neighbor == node || Reaches(edges, neighbor, node) || LeadsIntoCycle(edges, neighbor)
    ensures LeadsIntoCycle(edges, neighbor) && LeadsIntoCycle(edges, node)
  {
    EdgeReaches(edges, node, neighbor);
    if Reaches(edges, neighbor, node) {
      ReachesTransitive(edges, neighbor, node, neighbor);
    }
    EdgeIntoCycle(edges, node, neighbor);
  }

  /** The three sets that the nested `visit` function mutates. */
  class CycleFinder {
    const edges: seq<Edge>
    const ids: set<Id>
    var visited: set<Id>
    var stack: set<Id>
    var cycleNodes: set<Id>

    constructor (edges: seq<Edge>, ids: set<Id>)
      ensures this.edges == edges && this.ids == ids
      ensures visited == stack == cycleNodes == {}
    {
      this.edges, this.ids := edges, ids;
      visited, stack, cycleNodes := {}, {}, {};
    }

    ghost function Universe(): set<Id> {
      ids + set e | e in edges :: e.target
    }

    /** Finished nodes are closed under edges and lie on no cycle; recorded ones lead into a cycle. */
    ghost predicate Honest()
      reads this
    {
      && stack <= visited
      && ClosedUnder(edges, visited - stack)
      && (forall x :: x in visited - stack ==> !Reaches(edges, x, x))
      && (forall x :: x in cycleNodes ==> LeadsIntoCycle(edges, x))
    }

    /** Every node on the stack leads to `node`, or into a cycle found earlier. */
    ghost predicate StackLeadsTo(node: Id)
      reads this
    {
      forall s :: s in stack && s != node ==> Reaches(edges, s, node) || LeadsIntoCycle(edges, s)
    }

    /** A visit that finds a cycle leaves the stack dirty, but records all that it leaves there. */
    method Visit(node: Id) returns (found: bool)
      requires Honest() && node !in visited && node in Universe() && StackLeadsTo(node)
      modifies this
      ensures Honest() && old(visited) + {node} <= visited && old(stack) <= stack && old(cycleNodes) <= cycleNodes
      ensures stack - old(stack) <= cycleNodes
      ensures if found then node in cycleNodes else stack == old(stack) && node in visited - stack
      decreases Universe() - visited
    {
      visited := visited + {node};
      stack := stack + {node};
      var neighbors := Targets(edges, node);
      for k := 0 to |neighbors|
        invariant Honest() && old(visited) + {node} <= visited && old(cycleNodes) <= cycleNodes
        invariant stack == old(stack) + {node}
        invariant forall i :: 0 <= i < k ==> neighbors[i] in visited - stack
      {
        var neighbor := neighbors[k];
        AdjacencyExact(edges, node, neighbor);
        EdgeReaches(edges, node, neighbor);
        assert Edge(node, neighbor) in edges;
        if neighbor !in visited {
          forall s | s in stack && s != node && Reaches(edges, s, node)
            ensures Reaches(edges, s, neighbor)
          {
            ReachesTransitive(edges, s, node, neighbor);
          }
          var inner := Visit(neighbor);
          if inner {
            EdgeIntoCycle(edges, node, neighbor);
            cycleNodes := cycleNodes + {node};
            return true;
          }
        } else if neighbor in stack {
          BackEdge(edges, node, neighbor);
          cycleNodes := cycleNodes + {node, neighbor};
          return true;
        }
      }
      forall c | Edge(node, c) in edges
        ensures c in visited - stack
      {
        AdjacencyExact(edges, node, c);
      }
      if Reaches(edges, node, node) {
        ClosedKeepsPaths(edges, visited - stack, node, node);
      }
      assert visited - (stack - {node}) == (visited - stack) + {node};
      stack := stack - {node};
      found := false;
    }

    method Search()
      requires visited == stack == cycleNodes == {}
      requires forall e :: e in edges ==> e.source in ids
      modifies this
      ensures forall x :: x in cycleNodes <==> LeadsIntoCycle(edges, x)
    {
      var todo := ids;
      while todo != {}
        invariant Honest() && todo <= ids && ids - todo <= visited && stack <= cycleNodes
      {
        var node :| node in todo;
        if node !in visited {
          var _ := Visit(node);
        }
        todo := todo - {node};
      }
      forall x | LeadsIntoCycle(edges, x)
        ensures x in cycleNodes
      {
        var c :| Reaches(edges, c, c) && (x == c || Reaches(edges, x, c));
        var next := FirstStep(edges, x, c);
        assert Edge(x, next).source in ids;
        if x in visited - stack {
          FinishedStaysFinished(edges, visited - stack, x, c);
        }
      }
    }
  }

  lemma FinishedStaysFinished(edges: seq<Edge>, s: set<Id>, x: Id, c: Id)
    requires ClosedUnder(edges, s) && x in s && Reaches(edges, x, c)
    ensures c in s
  {
    forall y | Edge(x, y) in edges
      ensures y in s
    {
      assert Edge(x, y).target in s;
    }
    ClosedKeepsPaths(edges, s, x, c);
  }

  lemma CycleOrNone(edges: seq<Edge>, cycleNodes: set<Id>)
    requires forall x :: x in cycleNodes <==> LeadsIntoCycle(edges, x)
    ensures cycleNodes == {} <==> Acyclic(edges)
  {
    if !Acyclic(edges) {
      var c :| Reaches(edges, c, c);
      assert LeadsIntoCycle(edges, c);
    }
    if cycleNodes != {} {
      var x :| x in cycleNodes;
      assert LeadsIntoCycle(edges, x);
    }
  }

  /** `_find_cycle_nodes`: exactly the nodes on a cycle or before one, so none exactly on acyclic adjacencies. */
  method FindCycleNodes(g: Graph) returns (cycleNodes: set<Id>)
    ensures cycleNodes == {} <==> Acyclic(Live(g))
    ensures forall x :: x in cycleNodes <==> LeadsIntoCycle(Live(g), x)
  {
    var finder := new CycleFinder(Live(g), NodeIds(g));
    forall e | e in finder.edges
      ensures e.source in finder.ids
    {
      LiveMember(g.edges, |g.edges|, NodeIds(g), e);
    }
    finder.Search();
    cycleNodes := finder.cycleNodes;
    CycleOrNone(Live(g), cycleNodes);
  }

  // ----- Kahn's algorithm -----

  /** How many entries of `s` are outside `done`. */
  ghost function Waiting(s: seq<Id>, done: set<Id>): nat {
    if s == [] then 0
    else (if s[0] in done then 0 else 1) + Waiting(s[1..], done)
  }

  lemma {:induction false} WaitingStep(s: seq<Id>, done: set<Id>, v: Id)
    requires v !in done
    ensures Waiting(s, done) == Waiting(s, done + {v}) + multiset(s)[v]
  {
    if s == [] {
    } else {
      WaitingStep(s[1..], done, v);
      assert s == [s[0]] + s[1..];
    }
  }

  lemma {:induction false} WaitingZero(s: seq<Id>, done: set<Id>)
    ensures Waiting(s, done) == 0 <==> forall x :: x in s ==> x in done
    ensures Waiting(s, {}) == |s|
  {
    if s == [] {
    } else {
      WaitingZero(s[1..], done);
      assert forall x :: x in s <==> x == s[0] || x in s[1..];
    }
  }

  /** Every edge between listed nodes points forward. */
  ghost predicate PointsForward(edges: seq<Edge>, order: seq<Id>) {
    forall i, j :: 0 <= i < |order| && 0 <= j < |order| && Edge(order[i], order[j]) in edges ==> i < j
  }

  ghost predicate IsTopologicalOrder(g: Graph, order: seq<Id>) {
    && |order| == |g.nodes|
    && NoRepeats(order)
    && (forall x :: x in order <==> x in NodeIds(g))
    && PointsForward(g.edges, order)
  }

  /** Each edge has both ends among the nodes, or neither. */
  ghost predicate NoHalfEdges(g: Graph) {
    forall e :: e in g.edges ==> (e.source in NodeIds(g) <==> e.target in NodeIds(g))
  }

  lemma OrderMeansAcyclic(g: Graph, order: seq<Id>)
    requires IsTopologicalOrder(g, order) && NoHalfEdges(g)
    ensures Acyclic(Live(g))
  {
    forall a
      ensures !Reaches(Live(g), a, a)
    {
      if Reaches(Live(g), a, a) {
        var p :| PathBetween(Live(g), p, a, a);
        assert Edge(p[0], p[1]) in Live(g);
        LiveMember(g.edges, |g.edges|, NodeIds(g), Edge(p[0], p[1]));
        var first :| 0 <= first < |order| && order[first] == p[0];
        var at := first;
        var i := 0;
        while i < |p| - 1
          invariant 0 <= i < |p| && 0 <= at < |order| && order[at] == p[i]
          invariant first <= at && (i > 0 ==> first < at)
        {
          assert Edge(p[i], p[i + 1]) in Live(g);
          LiveMember(g.edges, |g.edges|, NodeIds(g), Edge(p[i], p[i + 1]));
          var next :| 0 <= next < |order| && order[next] == p[i + 1];
          at, i := next, i + 1;
        }
      }
    }
  }

  ghost function Elements(s: seq<Id>): set<Id> {
    set x | x in s
  }

  lemma {:induction false} ElementCount(s: seq<Id>)
    ensures |Elements(s)| <= |s|
    ensures |Elements(s)| == |s| <==> NoRepeats(s)
  {
    if s == [] {
    } else {
      var front, last := s[..|s| - 1], s[|s| - 1];
      ElementCount(front);
      if last in front {
        assert Elements(s) == Elements(front);
      } else {
        assert Elements(s) == Elements(front) + {last};
        assert NoRepeats(s) <== NoRepeats(front);
      }
    }
  }

  lemma SubsetCount(small: set<Id>, big: set<Id>)
    requires small <= big
    ensures |small| <= |big|
    ensures |small| == |big| ==> small == big
  {
    assert big == small + (big - small);
  }

  lemma DistinctByCount(g: Graph)
    ensures |NodeIds(g)| <= |g.nodes|
    ensures |NodeIds(g)| == |g.nodes| <==> DistinctIds(g)
  {
    var ids := seq(|g.nodes|, i requires 0 <= i < |g.nodes| => g.nodes[i].id);
    ElementCount(ids);
    forall x
      ensures x in NodeIds(g) <==> x in ids
    {
      if x in NodeIds(g) {
        var i :| 0 <= i < |g.nodes| && g.nodes[i].id == x;
        assert ids[i] == x;
      }
    }
    assert NodeIds(g) == Elements(ids);
    if NoRepeats(ids) {
      forall i, j | 0 <= i < j < |g.nodes|
        ensures g.nodes[i].id != g.nodes[j].id
      {
        assert ids[i] != ids[j];
      }
    }
  }

  /** Kahn's bookkeeping while `rest` still has to be subtracted from the in-degrees. */
  ghost predicate Balanced(
    ids: set<Id>, edges: seq<Edge>, indegree: map<Id, int>, queue: seq<Id>, order: seq<Id>, rest: multiset<Id>)
  {
    && indegree.Keys == ids
    && NoRepeats(order + queue)
    && (forall x :: x in order + queue ==> x in ids)
    && (forall b :: b in ids ==> indegree[b] == Waiting(Sources(edges, b), Elements(order)) + rest[b])
    && (forall b :: b in ids ==> (indegree[b] == 0 <==> b in order + queue))
  }

  /** Appending the front of the queue to the order leaves its targets to be subtracted. */
  lemma FrontMoves(ids: set<Id>, edges: seq<Edge>, indegree: map<Id, int>, queue: seq<Id>, order: seq<Id>)
    requires Balanced(ids, edges, indegree, queue, order, multiset{}) && queue != []
    ensures Balanced(ids, edges, indegree, queue[1..], order + [queue[0]], multiset(Targets(edges, queue[0])))
    ensures forall a :: Edge(a, queue[0]) in edges ==> a in order
    ensures queue[0] !in order
  {
    var v := queue[0];
    assert order + queue == (order + [v]) + queue[1..];
    assert (order + queue)[|order|] == v;
    forall i | 0 <= i < |order|
      ensures order[i] != v
    {
      assert (order + queue)[i] == order[i];
    }
    assert Elements(order + [v]) == Elements(order) + {v};
    forall b | b in ids
      ensures indegree[b] == Waiting(Sources(edges, b), Elements(order + [v])) + multiset(Targets(edges, v))[b]
    {
      WaitingStep(Sources(edges, b), Elements(order), v);
      AdjacencyExact(edges, v, b);
    }
    assert v in order + queue;
    WaitingZero(Sources(edges, v), Elements(order));
    forall a | Edge(a, v) in edges
      ensures a in order
    {
      AdjacencyExact(edges, a, v);
      assert a in Sources(edges, v);
    }
  }

  lemma FrontIsNew(ids: set<Id>, queue: seq<Id>, order: seq<Id>)
    requires queue != [] && queue[0] !in order
    requires forall x :: x in order + queue ==> x in ids
    ensures queue[0] in ids
    ensures ids - Elements(order + [queue[0]]) < ids - Elements(order)
  {
    assert queue[0] in order + queue;
    assert Elements(order + [queue[0]]) == Elements(order) + {queue[0]};
  }

  /** One unit subtracted, and the node queued if it has become free. */
  lemma OneLess(
    ids: set<Id>, edges: seq<Edge>, indegree: map<Id, int>, queue: seq<Id>, order: seq<Id>, rest: multiset<Id>, b: Id)
    requires Balanced(ids, edges, indegree, queue, order, rest) && b in ids && b in rest
    ensures var left := indegree[b] - 1;
            var longer := if left == 0 then queue + [b] else queue;
            Balanced(ids, edges, indegree[b := left], longer, order, rest - multiset{b})
  {
    var left := indegree[b] - 1;
    assert b !in order + queue;
    if left == 0 {
      assert order + (queue + [b]) == (order + queue) + [b];
    }
  }

  /** The inner loop: subtract one unit per outgoing edge; an edge to no node is a key error. */
  method Release(ids: set<Id>, edges: seq<Edge>, before: map<Id, int>, waiting: seq<Id>, order: seq<Id>, node: Id)
    returns (fits: bool, indegree: map<Id, int>, queue: seq<Id>)
    requires Balanced(ids, edges, before, waiting, order, multiset(Targets(edges, node)))
    ensures fits ==> Balanced(ids, edges, indegree, queue, order, multiset{})
    ensures fits <==> forall c :: Edge(node, c) in edges ==> c in ids
  {
    indegree, queue := before, waiting;
    var successors := Targets(edges, node);
    assert successors[0..] == successors;
    for k := 0 to |successors|
      invariant Balanced(ids, edges, indegree, queue, order, multiset(successors[k..]))
      invariant forall i :: 0 <= i < k ==> successors[i] in ids
    {
      var successor := successors[k];
      assert successors[k..] == [successor] + successors[k + 1..];
      assert multiset(successors[k..]) - multiset{successor} == multiset(successors[k + 1..]);
      if successor !in indegree {
        AdjacencyExact(edges, node, successor);
        return false, indegree, queue;
      }
      OneLess(ids, edges, indegree, queue, order, multiset(successors[k..]), successor);
      indegree := indegree[successor := indegree[successor] - 1];
      if indegree[successor] == 0 {
        queue := queue + [successor];
      }
    }
    assert successors[|successors|..] == [];
    forall c | Edge(node, c) in edges
      ensures c in ids
    {
      AdjacencyExact(edges, node, c);
    }
    fits := true;
  }

  /** Predecessors come first, and no listed node has an edge to outside the graph. */
  ghost predicate OrderSettled(ids: set<Id>, edges: seq<Edge>, order: seq<Id>) {
    && (forall i, a :: 0 <= i < |order| && Edge(a, order[i]) in edges ==> a in order[..i])
    && (forall a, c :: a in order && Edge(a, c) in edges ==> c in ids)
  }

  lemma OrderGrows(ids: set<Id>, edges: seq<Edge>, order: seq<Id>, node: Id)
    requires OrderSettled(ids, edges, order)
    requires forall a :: Edge(a, node) in edges ==> a in order
    requires forall c :: Edge(node, c) in edges ==> c in ids
    ensures OrderSettled(ids, edges, order + [node])
  {
    var longer := order + [node];
    forall i, a | 0 <= i < |longer| && Edge(a, longer[i]) in edges
      ensures a in longer[..i]
    {
      assert longer[..i] == order[..i];
    }
  }

  /** When the queue runs dry, the length of the order decides. */
  lemma Verdict(g: Graph, indegree: map<Id, int>, order: seq<Id>)
    requires Balanced(NodeIds(g), g.edges, indegree, [], order, multiset{})
    requires OrderSettled(NodeIds(g), g.edges, order)
    ensures |order| == |g.nodes| <==> DistinctIds(g) && NoHalfEdges(g) && Acyclic(Live(g))
    ensures |order| == |g.nodes| ==> IsTopologicalOrder(g, order)
  {
    assert order + [] == order;
    OrderWithinIds(g, order);
    if |order| == |g.nodes| {
      CompleteOrder(g, order);
      OrderMeansAcyclic(g, order);
    } else if DistinctIds(g) && NoHalfEdges(g) {
      StuckMeansCycle(g, indegree, order);
    }
  }

  /** `topological_order`: succeeds exactly on graphs with distinct ids, whole edges and no cycle. */
  method TopologicalOrder(g: Graph) returns (result: Option<seq<Id>>)
    ensures result.Some? <==> DistinctIds(g) && NoHalfEdges(g) && Acyclic(Live(g))
    ensures result.Some? ==> IsTopologicalOrder(g, result.value)
  {
    var ids, edges := NodeIds(g), g.edges;
    var indegree: map<Id, int>, queue := InitialQueue(g);
    var order: seq<Id> := [];
    while queue != []
      invariant Balanced(ids, edges, indegree, queue, order, multiset{})
      invariant OrderSettled(ids, edges, order)
      decreases ids - Elements(order)
    {
      var node := queue[0];
      FrontMoves(ids, edges, indegree, queue, order);
      FrontIsNew(ids, queue, order);
      var fits;
      fits, indegree, queue := Release(ids, edges, indegree, queue[1..], order + [node], node);
      if !fits {
        return None;
      }
      OrderGrows(ids, edges, order, node);
      order := order + [node];
    }
    Verdict(g, indegree, order);
    return if |order| == |g.nodes| then Some(order) else None;
  }

  /** In-degrees as counted from the backward lists, and the nodes that start with none. */
  method InitialQueue(g: Graph) returns (indegree: map<Id, int>, queue: seq<Id>)
    ensures Balanced(NodeIds(g), g.edges, indegree, queue, [], multiset{})
  {
    var ids, edges := NodeIds(g), g.edges;
    indegree := map b | b in ids :: |Sources(edges, b)|;
    forall b | b in ids
      ensures indegree[b] == Waiting(Sources(edges, b), Elements([]))
    {
      assert Elements([]) == {};
      WaitingZero(Sources(edges, b), {});
    }
    queue := [];
    for k := 0 to |g.nodes|
      invariant NoRepeats(queue)
      invariant forall x :: x in queue <==> x in ids && indegree[x] == 0 && exists i :: 0 <= i < k && g.nodes[i].id == x
    {
      var id := g.nodes[k].id;
      assert id in ids;
      if indegree[id] == 0 && id !in queue {
        queue := queue + [id];
      }
    }
    assert [] + queue == queue;
  }

  lemma OrderWithinIds(g: Graph, order: seq<Id>)
    requires NoRepeats(order) && forall x :: x in order ==> x in NodeIds(g)
    ensures |order| <= |NodeIds(g)| <= |g.nodes|
    ensures |order| == |g.nodes| ==> DistinctIds(g) && Elements(order) == NodeIds(g)
    ensures DistinctIds(g) && Elements(order) == NodeIds(g) ==> |order| == |g.nodes|
  {
    ElementCount(order);
    SubsetCount(Elements(order), NodeIds(g));
    DistinctByCount(g);
  }

  /** If nodes are left over when the queue runs dry, they feed one another in a cycle. */
  lemma StuckMeansCycle(g: Graph, indegree: map<Id, int>, order: seq<Id>)
    requires Balanced(NodeIds(g), g.edges, indegree, [], order, multiset{})
    requires NoHalfEdges(g) && Elements(order) != NodeIds(g)
    ensures !Acyclic(Live(g))
  {
    forall x | x in order
      ensures x in NodeIds(g)
    {
      assert x in order + [];
    }
    assert Elements(order) <= NodeIds(g);
    var left := NodeIds(g) - Elements(order);
    assert !(NodeIds(g) <= Elements(order));
    var missing :| missing in NodeIds(g) && missing !in Elements(order);
    assert missing in left;
    forall b | b in left
      ensures HasPredecessorIn(Live(g), left, b)
    {
      WaitingZero(Sources(g.edges, b), Elements(order));
      var a :| a in Sources(g.edges, b) && a !in Elements(order);
      AdjacencyExact(g.edges, a, b);
      assert Edge(a, b) in g.edges;
      LiveMember(g.edges, |g.edges|, NodeIds(g), Edge(a, b));
      assert a in left;
    }
    NoMinimumMeansCycle(Live(g), left);
  }

  lemma CompleteOrder(g: Graph, order: seq<Id>)
    requires |order| == |g.nodes| && NoRepeats(order) && Elements(order) == NodeIds(g)
    requires OrderSettled(NodeIds(g), g.edges, order)
    ensures IsTopologicalOrder(g, order) && NoHalfEdges(g)
  {
    forall e | e in g.edges
      ensures e.source in NodeIds(g) <==> e.target in NodeIds(g)
    {
      if e.target in Elements(order) {
        var i :| 0 <= i < |order| && order[i] == e.target;
        assert Edge(e.source, order[i]) == e;
        assert e.source in Elements(order);
      }
    }
    forall i, j | 0 <= i < |order| && 0 <= j < |order| && Edge(order[i], order[j]) in g.edges
      ensures i < j
    {
      var m :| 0 <= m < j && order[..j][m] == order[i];
    }
    assert forall x :: x in order <==> x in Elements(order);
  }

  /** On well-formed graphs both checks speak about the plain edge relation. */
  lemma LiveOnWellFormed(g: Graph)
    requires NoDangling(g)
    ensures Live(g) == g.edges && NoHalfEdges(g)
  {
    LiveWhole(g.edges, |g.edges|, NodeIds(g));
  }

  /** When every other node can be reached from the start, any topological order begins there. */
  lemma OrderBeginsAtStart(g: Graph, order: seq<Id>, start: Id)
    requires IsTopologicalOrder(g, order) && NoDangling(g) && |order| > 0
    requires forall x :: x in NodeIds(g) ==> x == start || Reaches(g.edges, start, x)
    ensures order[0] == start
  {
    var first := order[0];
    forall c | c in order
      ensures Edge(c, first) !in g.edges
    {
      var i :| 0 <= i < |order| && order[i] == c;
    }
    assert first in NodeIds(g);
    if first != start {
      var _ := LastStep(g.edges, start, first);
    }
  }
}
