/** Breadth-first and depth-first searches over workflow graphs. */
module GraphSearch {
  import opened Values
  import opened Graphs

  // ----- breadth-first search -----

  ghost function Frontier(edges: seq<Edge>, queue: seq<Id>): set<Id> {
    (set e | e in edges :: e.target) + (set q | q in queue)
  }

  /** The order in which a queue-driven search first meets each node. */
  ghost function VisitOrder(edges: seq<Edge>, queue: seq<Id>, visited: set<Id>): (order: seq<Id>)
    decreases Frontier(edges, queue) - visited, |queue|
  {
    if queue == [] then []
    else if queue[0] in visited then
      QueueShrinks(edges, queue, visited);
      VisitOrder(edges, queue[1..], visited)
    else
      var next := queue[1..] + Targets(edges, queue[0]);
      FrontierShrinks(edges, queue, visited);
      [queue[0]] + VisitOrder(edges, next, visited + {queue[0]})
  }

  lemma QueueShrinks(edges: seq<Edge>, queue: seq<Id>, visited: set<Id>)
    requires queue != []
    ensures queue[0] in visited ==>
              Frontier(edges, queue[1..]) - visited == Frontier(edges, queue) - visited
              || Frontier(edges, queue[1..]) - visited < Frontier(edges, queue) - visited
    ensures forall x :: x in queue ==> x == queue[0] || x in queue[1..]
  {
    assert Frontier(edges, queue[1..]) - visited <= Frontier(edges, queue) - visited;
  }

  lemma FrontierShrinks(edges: seq<Edge>, queue: seq<Id>, visited: set<Id>)
    requires queue != [] && queue[0] !in visited
    ensures Frontier(edges, queue[1..] + Targets(edges, queue[0])) - (visited + {queue[0]})
          < Frontier(edges, queue) - visited
  {
    forall x | x in Targets(edges, queue[0])
      ensures x in Frontier(edges, queue)
    {
      AdjacencyExact(edges, queue[0], x);
      assert Edge(queue[0], x) in edges;
    }
    assert queue[0] in Frontier(edges, queue) - visited;
  }

  /** Nothing is met twice, everything met is reachable from the queue, and the result is closed. */
  lemma {:induction false} VisitOrderExact(edges: seq<Edge>, queue: seq<Id>, visited: set<Id>)
    ensures var order := VisitOrder(edges, queue, visited);
            && NoRepeats(order)
            && (forall x :: x in order ==> x !in visited && exists q :: q in queue && (q == x || Reaches(edges, q, x)))
            && (forall q :: q in queue ==> q in visited || q in order)
            && (forall e :: e in edges && e.source in order ==> e.target in visited || e.target in order)
    decreases Frontier(edges, queue) - visited, |queue|
  {
    var order := VisitOrder(edges, queue, visited);
    if queue == [] {
    } else if queue[0] in visited {
      QueueShrinks(edges, queue, visited);
      VisitOrderExact(edges, queue[1..], visited);
      forall x | x in order
        ensures exists q :: q in queue && (q == x || Reaches(edges, q, x))
      {
        var q :| q in queue[1..] && (q == x || Reaches(edges, q, x));
        assert q in queue;
      }
    } else {
      var here, next := queue[0], queue[1..] + Targets(edges, queue[0]);
      FrontierShrinks(edges, queue, visited);
      VisitOrderExact(edges, next, visited + {here});
      var rest := VisitOrder(edges, next, visited + {here});
      forall x | x in order
        ensures x !in visited && exists q :: q in queue && (q == x || Reaches(edges, q, x))
      {
        if x == here {
          assert here in queue;
        } else {
          var q :| q in next && (q == x || Reaches(edges, q, x));
          if q in Targets(edges, here) {
            AdjacencyExact(edges, here, q);
            EdgeReaches(edges, here, q);
            if q != x {
              ReachesTransitive(edges, here, q, x);
            }
            assert here in queue;
          } else {
            assert q in queue;
          }
        }
      }
      forall e | e in edges && e.source in order
        ensures e.target in visited || e.target in order
      {
        if e.source == here {
          AdjacencyExact(edges, here, e.target);
          assert Edge(here, e.target) == e;
          assert e.target in next;
        }
      }
    }
  }

  /** Everything reachable by at least one edge from `id`, in search order. */
  ghost function Downstream(edges: seq<Edge>, id: Id): seq<Id> {
    VisitOrder(edges, Targets(edges, id), {})
  }

  lemma DownstreamExact(edges: seq<Edge>, id: Id)
    ensures NoRepeats(Downstream(edges, id))
    ensures forall x :: x in Downstream(edges, id) <==> Reaches(edges, id, x)
  {
    var start, order := Targets(edges, id), Downstream(edges, id);
    VisitOrderExact(edges, start, {});
    forall x
      ensures x in order <==> Reaches(edges, id, x)
    {
      if x in order {
        var q :| q in start && (q == x || Reaches(edges, q, x));
        AdjacencyExact(edges, id, q);
        EdgeReaches(edges, id, q);
        if q != x {
          ReachesTransitive(edges, id, q, x);
        }
      }
      if Reaches(edges, id, x) {
        var met := set y | y in order;
        forall c | Edge(id, c) in edges
          ensures c in met
        {
          AdjacencyExact(edges, id, c);
        }
        ClosedKeepsPaths(edges, met, id, x);
      }
    }
  }

  ghost function TasksOf(g: Graph, ids: seq<Id>): seq<Id> {
    if ids == [] then []
    else if IsTask(g, ids[|ids| - 1]) then TasksOf(g, ids[..|ids| - 1]) + [ids[|ids| - 1]]
    else TasksOf(g, ids[..|ids| - 1])
  }

  lemma {:induction false} TasksOfExact(g: Graph, ids: seq<Id>)
    requires NoRepeats(ids)
    ensures NoRepeats(TasksOf(g, ids))
    ensures forall x :: x in TasksOf(g, ids) <==> x in ids && IsTask(g, x)
  {
    if ids == [] {
    } else {
      var front := ids[..|ids| - 1];
      TasksOfExact(g, front);
      assert ids == front + [ids[|ids| - 1]];
    }
  }

  ghost function DownstreamTasks(g: Graph, id: Id): seq<Id> {
    TasksOf(g, Downstream(g.edges, id))
  }

  /** `downstream_task_nodes` lists, without repeats, exactly the tasks on some path leaving `id`. */
  lemma DownstreamTasksExact(g: Graph, id: Id)
    ensures NoRepeats(DownstreamTasks(g, id))
    ensures forall t :: t in DownstreamTasks(g, id) <==> IsTask(g, t) && Reaches(g.edges, id, t)
  {
    DownstreamExact(g.edges, id);
    TasksOfExact(g, Downstream(g.edges, id));
  }

  lemma NothingDownstream(g: Graph, id: Id)
    ensures DownstreamTasks(g, id) == [] <==> forall t :: IsTask(g, t) ==> !Reaches(g.edges, id, t)
  {
    DownstreamTasksExact(g, id);
    var tasks := DownstreamTasks(g, id);
    if tasks != [] {
      assert tasks[0] in tasks;
    }
  }

  lemma VisitStep(edges: seq<Edge>, order: seq<Id>, queue: seq<Id>, visited: set<Id>)
    requires queue != [] && queue[0] !in visited
    ensures order + VisitOrder(edges, queue, visited)
         == (order + [queue[0]]) + VisitOrder(edges, queue[1..] + Targets(edges, queue[0]), visited + {queue[0]})
  {
  }

  lemma TasksOfStep(g: Graph, order: seq<Id>, x: Id)
    ensures TasksOf(g, order + [x]) == if IsTask(g, x) then TasksOf(g, order) + [x] else TasksOf(g, order)
  {
    assert (order + [x])[..|order|] == order;
  }

  /** A search that meets a target which is no node raises a key error. */
  method DownstreamTaskNodes(g: Graph, id: Id) returns (tasks: Option<seq<Id>>)
    ensures tasks.Some? <==> forall x :: Reaches(Live(g), id, x) ==> x in NodeIds(g)
    ensures tasks.Some? ==> NoRepeats(tasks.value)
    ensures tasks.Some? ==> forall t :: t in tasks.value <==> IsTask(g, t) && Reaches(Live(g), id, t)
    ensures NoDangling(g) ==> tasks == Some(DownstreamTasks(g, id))
  {
    var edges := Live(g);
    var visited: set<Id> := {};
    var queue := Targets(edges, id);
    var found: seq<Id> := [];
    ghost var order := [];
    DownstreamExact(edges, id);
    LiveReaches(g, id);
    while queue != []
      invariant order + VisitOrder(edges, queue, visited) == Downstream(edges, id)
      invariant found == TasksOf(g, order) && forall x :: x in order ==> x in NodeIds(g)
      decreases Frontier(edges, queue) - visited, |queue|
    {
      var current := queue[0];
      QueueShrinks(edges, queue, visited);
      if current in visited {
        queue := queue[1..];
      } else {
        FrontierShrinks(edges, queue, visited);
        VisitStep(edges, order, queue, visited);
        TasksOfStep(g, order, current);
        NodeIdsAgree(g, current);
        if FindNode(g.nodes, current).None? {
          assert current in order + VisitOrder(edges, queue, visited);
          return None;
        }
        visited := visited + {current};
        if IsTask(g, current) {
          found := found + [current];
        }
        queue := queue[1..] + Targets(edges, current);
        order := order + [current];
      }
    }
    assert order == Downstream(edges, id);
    TasksOfExact(g, order);
    return Some(found);
  }

  /** Without dangling edges the adjacency keeps every edge, and paths end at nodes. */
  lemma LiveReaches(g: Graph, id: Id)
    ensures NoDangling(g) ==> Live(g) == g.edges && forall x :: Reaches(g.edges, id, x) ==> x in NodeIds(g)
  {
    if NoDangling(g) {
      LiveWhole(g.edges, |g.edges|, NodeIds(g));
      forall x | Reaches(g.edges, id, x)
        ensures x in NodeIds(g)
      {
        var last := LastStep(g.edges, id, x);
        assert Edge(last, x).target in NodeIds(g);
      }
    }
  }

  /** `_reachable_from`: the start itself and whatever its outgoing paths meet. */
  method ReachableFrom(edges: seq<Edge>, start: Id) returns (visited: set<Id>)
    ensures forall x :: x in visited <==> x == start || Reaches(edges, start, x)
  {
    visited := {};
    var queue := [start];
    while queue != []
      invariant forall x :: x in visited || x in queue ==> x == start || Reaches(edges, start, x)
      invariant start in visited || start in queue
      invariant forall e :: e in edges && e.source in visited ==> e.target in visited || e.target in queue
      decreases Frontier(edges, queue) - visited, |queue|
    {
      var current := queue[0];
      QueueShrinks(edges, queue, visited);
      if current in visited {
        queue := queue[1..];
      } else {
        FrontierShrinks(edges, queue, visited);
        forall x | x in Targets(edges, current)
          ensures x == start || Reaches(edges, start, x)
        {
          AdjacencyExact(edges, current, x);
          EdgeReaches(edges, current, x);
          if current != start {
            ReachesTransitive(edges, start, current, x);
          }
        }
        forall e | e in edges && e.source == current
          ensures e.target in Targets(edges, current)
        {
          AdjacencyExact(edges, current, e.target);
        }
        visited := visited + {current};
        queue := queue[1..] + Targets(edges, current);
      }
    }
    forall x | Reaches(edges, start, x)
      ensures x in visited
    {
      ClosedKeepsPaths(edges, visited, start, x);
    }
  }

  // ----- ancestors, and their duality with downstream -----

  ghost function Flip(edges: seq<Edge>): seq<Edge> {
    seq(|edges|, i requires 0 <= i < |edges| => Edge(edges[i].target, edges[i].source))
  }

  lemma {:induction false} FlipTargets(edges: seq<Edge>, k: nat, id: Id)
    requires k <= |edges|
    ensures TargetsUpTo(Flip(edges), k, id) == SourcesUpTo(edges, k, id)
  {
    if k == 0 {
    } else {
      FlipTargets(edges, k - 1, id);
    }
  }

  lemma FlipMember(edges: seq<Edge>, a: Id, b: Id)
    ensures Edge(a, b) in edges <==> Edge(b, a) in Flip(edges)
  {
    if Edge(a, b) in edges {
      var i :| 0 <= i < |edges| && edges[i] == Edge(a, b);
      assert Flip(edges)[i] == Edge(b, a);
    }
  }

  lemma ReversedPath(edges: seq<Edge>, a: Id, b: Id)
    requires Reaches(edges, a, b)
    ensures Reaches(Flip(edges), b, a)
  {
    var p :| PathBetween(edges, p, a, b);
    var q := seq(|p|, i requires 0 <= i < |p| => p[|p| - 1 - i]);
    forall i | 0 <= i < |q| - 1
      ensures Edge(q[i], q[i + 1]) in Flip(edges)
    {
      var j := |p| - 2 - i;
      assert Edge(p[j], p[j + 1]) in edges;
      FlipMember(edges, p[j], p[j + 1]);
    }
    assert PathBetween(Flip(edges), q, b, a);
  }

  /** One entry of `_ancestors_by_node`: walk the edges backwards. */
  method Ancestors(edges: seq<Edge>, id: Id) returns (seen: set<Id>)
    ensures forall a :: a in seen <==> Reaches(edges, a, id)
  {
    ghost var flipped := Flip(edges);
    seen := {};
    var queue := Sources(edges, id);
    FlipTargets(edges, |edges|, id);
    forall x | x in queue
      ensures Reaches(edges, x, id)
    {
      AdjacencyExact(edges, x, id);
      EdgeReaches(edges, x, id);
    }
    forall e | e in edges && e.target == id
      ensures e.source in queue
    {
      AdjacencyExact(edges, e.source, id);
    }
    while queue != []
      invariant forall x :: x in seen || x in queue ==> Reaches(edges, x, id)
      invariant forall e :: e in edges && (e.target in seen || e.target == id) ==> e.source in seen || e.source in queue
      decreases Frontier(flipped, queue) - seen, |queue|
    {
      var current := queue[0];
      QueueShrinks(flipped, queue, seen);
      if current in seen {
        queue := queue[1..];
      } else {
        FrontierShrinks(flipped, queue, seen);
        FlipTargets(edges, |edges|, current);
        forall x | x in Sources(edges, current)
          ensures Reaches(edges, x, id)
        {
          AdjacencyExact(edges, x, current);
          EdgeReaches(edges, x, current);
          ReachesTransitive(edges, x, current, id);
        }
        forall e | e in edges && e.target == current
          ensures e.source in Sources(edges, current)
        {
          AdjacencyExact(edges, e.source, current);
        }
        seen := seen + {current};
        queue := queue[1..] + Sources(edges, current);
      }
    }
    forall a | Reaches(edges, a, id)
      ensures a in seen
    {
      ReversedPath(edges, a, id);
      forall e | e in flipped && (e.source in seen || e.source == id)
        ensures e.target in seen
      {
        FlipMember(edges, e.target, e.source);
        assert Edge(e.target, e.source) in edges;
      }
      ClosedKeepsPaths(flipped, seen, id, a);
    }
  }

  /** The backward walk and the forward walk are exact duals. */
  lemma Duality(g: Graph, ancestors: set<Id>, s: Id, t: Id)
    requires IsTask(g, t)
    requires forall a :: a in ancestors <==> Reaches(g.edges, a, t)
    ensures t in DownstreamTasks(g, s) <==> s in ancestors
  {
    DownstreamTasksExact(g, s);
  }

  // ----- the next pending task -----

  /** A path all of whose inner nodes are not tasks. */
  ghost predicate ThroughNonTasks(g: Graph, p: seq<Id>, a: Id, t: Id) {
    PathBetween(Live(g), p, a, t) && forall i :: 0 < i < |p| - 1 ==> !IsTask(g, p[i])
  }

  ghost predicate Leads(g: Graph, a: Id, t: Id) {
    exists p :: ThroughNonTasks(g, p, a, t)
  }

  lemma LeadsDirectly(g: Graph, a: Id, t: Id)
    requires Edge(a, t) in Live(g)
    ensures Leads(g, a, t)
  {
    assert ThroughNonTasks(g, [a, t], a, t);
  }

  lemma LeadsFurther(g: Graph, a: Id, b: Id, t: Id)
    requires Edge(a, b) in Live(g) && !IsTask(g, b) && Leads(g, b, t)
    ensures Leads(g, a, t)
  {
    var p :| ThroughNonTasks(g, p, b, t);
    var q := [a] + p;
    forall i | 0 <= i < |q| - 1
      ensures Edge(q[i], q[i + 1]) in Live(g)
    {
      if i > 0 {
        assert Edge(p[i - 1], p[i - 1 + 1]) in Live(g);
      }
    }
    assert ThroughNonTasks(g, q, a, t);
  }

  lemma LeadsReaches(g: Graph, a: Id, t: Id)
    requires Leads(g, a, t)
    ensures Reaches(Live(g), a, t)
  {
    var p :| ThroughNonTasks(g, p, a, t);
    assert PathBetween(Live(g), p, a, t);
  }

  /** How a walk ends: at a pending task, with nothing left to try, or at an id that is no node. */
  datatype Walked = Found(task: Id) | NothingFound | KeyError(id: Id)

  /** The depth-first order: from successor number `k` of `here` on, with what earlier branches have seen. */
  ghost function WalkFrom(g: Graph, pending: set<Id>, here: Id, k: nat, visited: set<Id>): (r: (Walked, set<Id>))
    requires k <= |Targets(Live(g), here)|
    ensures visited <= r.1
    decreases (set e | e in Live(g) :: e.target) - visited, |Targets(Live(g), here)| - k
  {
    if k == |Targets(Live(g), here)| then (NothingFound, visited)
    else
      var next := Targets(Live(g), here)[k];
      if next in visited then WalkFrom(g, pending, here, k + 1, visited)
      else
        TargetIsMet(g, here, next);
        var seen := visited + {next};
        if FindNode(g.nodes, next).None? then (KeyError(next), seen)
        else if IsTask(g, next) then
          if next in pending then (Found(next), seen) else WalkFrom(g, pending, here, k + 1, seen)
        else
          var inner := WalkFrom(g, pending, next, 0, seen);
          if inner.0 == NothingFound then WalkFrom(g, pending, here, k + 1, inner.1) else inner
  }

  lemma TargetIsMet(g: Graph, here: Id, next: Id)
    requires next in Targets(Live(g), here)
    ensures Edge(here, next) in Live(g) && next in (set e | e in Live(g) :: e.target)
  {
    AdjacencyExact(Live(g), here, next);
    assert Edge(here, next).target == next;
  }

  /** `x` is a node and no pending task, and if it is not a task its successors have been seen. */
  ghost predicate Exhausted(g: Graph, pending: set<Id>, x: Id, visited: set<Id>) {
    && x in NodeIds(g)
    && if IsTask(g, x) then x !in pending else forall y :: Edge(x, y) in Live(g) ==> y in visited
  }

  lemma ExhaustedGrows(g: Graph, pending: set<Id>, x: Id, visited: set<Id>, more: set<Id>)
    requires Exhausted(g, pending, x, visited) && visited <= more
    ensures Exhausted(g, pending, x, more)
  {
  }

  /** What the outcome of a walk says about what `here` leads to. */
  ghost predicate Sound(g: Graph, pending: set<Id>, here: Id, outcome: Walked) {
    match outcome
    case Found(t) => IsTask(g, t) && t in pending && Leads(g, here, t)
    case NothingFound => true
    case KeyError(x) => x !in NodeIds(g) && Leads(g, here, x)
  }

  /** The recursive `walk`, with its shared visited set passed in and out. */
  method Walk(g: Graph, pending: set<Id>, here: Id, before: set<Id>) returns (outcome: Walked, visited: set<Id>)
    ensures (outcome, visited) == WalkFrom(g, pending, here, 0, before)
    ensures before <= visited && Sound(g, pending, here, outcome)
    ensures outcome == NothingFound ==> forall y :: Edge(here, y) in Live(g) ==> y in visited
    ensures outcome == NothingFound ==> forall x :: x in visited - before ==> Exhausted(g, pending, x, visited)
    decreases (set e | e in Live(g) :: e.target) - before
  {
    visited := before;
    var successors := Targets(Live(g), here);
    for k := 0 to |successors|
      invariant WalkFrom(g, pending, here, k, visited) == WalkFrom(g, pending, here, 0, before)
      invariant before <= visited
      invariant forall i :: 0 <= i < k ==> successors[i] in visited
      invariant forall x :: x in visited - before ==> Exhausted(g, pending, x, visited)
    {
      var next := successors[k];
      if next in visited {
        continue;
      }
      TargetIsMet(g, here, next);
      NodeIdsAgree(g, next);
      LeadsDirectly(g, here, next);
      ghost var prior := visited;
      visited := visited + {next};
      forall x | x in prior - before
        ensures Exhausted(g, pending, x, visited)
      {
        ExhaustedGrows(g, pending, x, prior, visited);
      }
      if FindNode(g.nodes, next).None? {
        return KeyError(next), visited;
      }
      if IsTask(g, next) {
        if next in pending {
          return Found(next), visited;
        }
        continue;
      }
      outcome, visited := Walk(g, pending, next, visited);
      if outcome != NothingFound {
        LeadsFurther(g, here, next, if outcome.Found? then outcome.task else outcome.id);
        return;
      }
      forall x | x in visited - before
        ensures Exhausted(g, pending, x, visited)
      {
        if x in prior {
          ExhaustedGrows(g, pending, x, prior, visited);
        }
      }
    }
    forall y | Edge(here, y) in Live(g)
      ensures y in visited
    {
      AdjacencyExact(Live(g), here, y);
    }
    return NothingFound, visited;
  }

  /** If nothing was found, nothing that `source` leads to is pending or missing. */
  lemma NothingMissed(g: Graph, source: Id, pending: set<Id>, visited: set<Id>, t: Id)
    requires forall y :: Edge(source, y) in Live(g) ==> y in visited
    requires forall x :: x in visited ==> Exhausted(g, pending, x, visited)
    requires Leads(g, source, t)
    ensures t in NodeIds(g) && !(IsTask(g, t) && t in pending)
  {
    var p :| ThroughNonTasks(g, p, source, t);
    var i := 1;
    assert Edge(p[0], p[1]) in Live(g);
    while i < |p| - 1
      invariant 1 <= i < |p| && p[i] in visited
    {
      assert Exhausted(g, pending, p[i], visited);
      assert Edge(p[i], p[i + 1]) in Live(g);
      i := i + 1;
    }
    assert Exhausted(g, pending, t, visited);
  }

  /** The first pending task in depth-first order; sound and complete on cyclic graphs too, although branches share
      what they have seen. */
  method NextPendingTaskFrom(g: Graph, source: Id, pending: set<Id>) returns (outcome: Walked)
    ensures outcome == WalkFrom(g, pending, source, 0, {}).0
    ensures Sound(g, pending, source, outcome)
    ensures outcome == NothingFound ==>
              forall t :: Leads(g, source, t) ==> t in NodeIds(g) && !(IsTask(g, t) && t in pending)
    ensures NoDangling(g) ==> !outcome.KeyError?
  {
    var visited;
    outcome, visited := Walk(g, pending, source, {});
    if outcome == NothingFound {
      forall t | Leads(g, source, t)
        ensures t in NodeIds(g) && !(IsTask(g, t) && t in pending)
      {
        NothingMissed(g, source, pending, visited, t);
      }
    }
    if outcome.KeyError? {
      LeadsReaches(g, source, outcome.id);
      LiveReaches(g, source);
    }
  }
}
