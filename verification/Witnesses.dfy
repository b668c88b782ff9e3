/** Concrete inputs on which natural claims about the engine fail. */
module Witnesses {
  import opened Values
  import opened Graphs
  import opened GraphSearch
  import opened Acyclicity
  import opened States
  import opened Engine
  import opened Invariants
  import opened Theorems
  import opened Ordering
  import opened Projections
  import opened Readiness

  // ----- two small graphs -----

  /** A form without fields that accepts anything. */
  ghost function OpenForm(): Kind {
    TaskNode(UserInput([], _ => true, None), [])
  }

  ghost predicate Different(start: Id, a: Id, b: Id, end: Id) {
    start != a && start != b && start != end && a != b && a != end && b != end
  }

  ghost function TwoTasks(start: Id, a: Id, b: Id, end: Id): seq<Node> {
    [Node(start, StartNode), Node(a, OpenForm()), Node(b, OpenForm()), Node(end, EndNode)]
  }

  /** start -> a -> end -> b: accepted by both validators, since nothing forbids an edge out of an end node. */
  ghost function Detour(start: Id, a: Id, b: Id, end: Id): Graph {
    Graph(TwoTasks(start, a, b, end), [Edge(start, a), Edge(a, end), Edge(end, b)])
  }

  /** start -> a -> end and start -> b -> end. */
  ghost function Fork(start: Id, a: Id, b: Id, end: Id): Graph {
    Graph(TwoTasks(start, a, b, end), [Edge(start, a), Edge(start, b), Edge(a, end), Edge(b, end)])
  }

  lemma NodeFound(g: Graph, i: nat)
    requires DistinctIds(g) && i < |g.nodes|
    ensures FindNode(g.nodes, g.nodes[i].id) == Some(g.nodes[i]) && g.nodes[i].id in NodeIds(g)
  {
    FindNodeExact(g.nodes, g.nodes[i].id);
  }

  lemma TwoTasksFound(g: Graph, start: Id, a: Id, b: Id, end: Id)
    requires Different(start, a, b, end) && g.nodes == TwoTasks(start, a, b, end)
    ensures DistinctIds(g) && NodeIds(g) == {start, a, b, end}
    ensures FindNode(g.nodes, start) == Some(Node(start, StartNode))
    ensures FindNode(g.nodes, end) == Some(Node(end, EndNode))
    ensures FindNode(g.nodes, a) == Some(Node(a, OpenForm())) && FindNode(g.nodes, b) == Some(Node(b, OpenForm()))
    ensures forall t :: IsTask(g, t) <==> t == a || t == b
    ensures OpenForms(g) && Wired(g)
    ensures forall rows: map<Id, Row> :: AllDone(g, rows) <==>
              a in rows && b in rows && rows[a].status == Completed && rows[b].status == Completed
  {
    NodeFound(g, 0);
    NodeFound(g, 1);
    NodeFound(g, 2);
    NodeFound(g, 3);
    forall t
      ensures IsTask(g, t) <==> t == a || t == b
    {
      NodeIdsAgree(g, t);
    }
    TasksAgree(g);
  }

  lemma DetourPublished(start: Id, a: Id, b: Id, end: Id)
    requires Different(start, a, b, end)
    ensures Published(Detour(start, a, b, end), start) && Reaches(Detour(start, a, b, end).edges, a, b)
  {
    var g := Detour(start, a, b, end);
    TwoTasksFound(g, start, a, b, end);
    LiveOnWellFormed(g);
    assert IsTopologicalOrder(g, [start, a, end, b]);
    OrderMeansAcyclic(g, [start, a, end, b]);
    EdgeReaches(g.edges, start, a);
    EdgeReaches(g.edges, a, end);
    EdgeReaches(g.edges, end, b);
    ReachesTransitive(g.edges, a, end, b);
    ReachesTransitive(g.edges, start, a, end);
    ReachesTransitive(g.edges, start, a, b);
  }

  lemma ForkAcyclic(start: Id, a: Id, b: Id, end: Id)
    requires Different(start, a, b, end)
    ensures Valid(Fork(start, a, b, end)) && EndsTerminal(Fork(start, a, b, end))
  {
    var g := Fork(start, a, b, end);
    TwoTasksFound(g, start, a, b, end);
    LiveOnWellFormed(g);
    assert IsTopologicalOrder(g, [start, a, b, end]);
    OrderMeansAcyclic(g, [start, a, b, end]);
  }

  lemma ForkPublished(start: Id, a: Id, b: Id, end: Id)
    requires Different(start, a, b, end)
    ensures Published(Fork(start, a, b, end), start) && EndsTerminal(Fork(start, a, b, end))
  {
    var g := Fork(start, a, b, end);
    TwoTasksFound(g, start, a, b, end);
    ForkAcyclic(start, a, b, end);
    EdgeReaches(g.edges, start, a);
    EdgeReaches(g.edges, start, b);
    EdgeReaches(g.edges, a, end);
    ReachesTransitive(g.edges, start, a, end);
  }

  /** The tasks of the fork come after the start alone, and nothing but the end comes after them. */
  lemma ForkTasksApart(start: Id, a: Id, b: Id, end: Id)
    requires Different(start, a, b, end)
    ensures var g := Fork(start, a, b, end);
            && DownstreamTasks(g, b) == []
            && forall p, t :: IsTask(g, t) && Edge(p, t) in g.edges ==> p == start && !IsTask(g, p)
  {
    var g := Fork(start, a, b, end);
    TwoTasksFound(g, start, a, b, end);
    NothingDownstream(g, b);
    forall t | IsTask(g, t)
      ensures !Reaches(g.edges, b, t)
    {
      if Reaches(g.edges, b, t) {
        var last := LastStep(g.edges, b, t);
        assert last == start && Reaches(g.edges, b, start);
        var _ := LastStep(g.edges, b, start);
      }
    }
  }

  // ----- readiness -----

  /** A task without direct task predecessors is pending from the start. */
  lemma RootsStartPending(g: Graph, metadata: Record, seeds: map<Id, Record>, t: Id)
    requires DistinctIds(g) && IsTask(g, t) && forall p :: Edge(p, t) in g.edges ==> !IsTask(g, p)
    ensures var s := StartWorkflow(g, metadata, seeds);
            && (forall u :: u in s.rows <==> IsTask(g, u))
            && s.rows[t].status == Pending
            && forall u :: u in s.rows ==> s.rows[u].status != Completed
  {
    TasksAgree(g);
    LaunchedCoherent(g, metadata, seeds);
    var s := Launched(g, metadata, seeds);
    AdvanceExact(g, s);
    assert Ready(g, s.rows, t);
  }

  /** Right after the start, `b` is pending although its ancestor task `a` is not completed. */
  lemma DetourBreaksReadiness(start: Id, a: Id, b: Id, end: Id, metadata: Record, seeds: map<Id, Record>)
    requires Different(start, a, b, end)
    ensures var g := Detour(start, a, b, end);
            && Published(g, start) && !EndsTerminal(g)
            && IsTask(g, a) && IsTask(g, b) && Reaches(g.edges, a, b)
            && var s := StartWorkflow(g, metadata, seeds);
            && a in s.rows && b in s.rows
            && s.rows[b].status == Pending && s.rows[a].status != Completed
  {
    var g := Detour(start, a, b, end);
    TwoTasksFound(g, start, a, b, end);
    DetourPublished(start, a, b, end);
    assert Edge(end, b) in g.edges;
    RootsStartPending(g, metadata, seeds, b);
  }

  // ----- limbo, the projected status, and the revision -----

  /** An accepted submit of a task that no task precedes. */
  lemma ForkSubmit(g: Graph, states: seq<State>, calls: seq<Call>, k: nat, done: seq<Id>, t: Id)
    requires Valid(g) && OpenForms(g) && IsRun(g, states, calls) && k < |calls| && calls[k] == Submit(t, map[], None)
    requires Tracks(g, states[k], done) && IsTask(g, t) && t !in done
    requires forall p :: Edge(p, t) in g.edges ==> !IsTask(g, p)
    ensures Succeeds(g, states, calls, k) && Tracks(g, states[k + 1], done + [t])
    ensures states[k + 1].revision == states[k].revision + if OthersDone(states[k].rows, t) then 1 else 0
  {
    RunMoves(g, states, calls, k);
    OpenFormExecutable(g, states[k], t, map[]);
    SubmitSucceedsIff(g, states[k], done, calls[k]);
    SubmitTracks(g, states[k], done, calls[k]);
    SubmitExact(g, states[k], t, map[], None);
  }

  lemma ForkFacts(start: Id, a: Id, b: Id, end: Id)
    requires Different(start, a, b, end)
    ensures var g := Fork(start, a, b, end);
            && Valid(g) && OpenForms(g) && (forall t :: IsTask(g, t) <==> t == a || t == b)
            && (forall t :: t in TaskIds(g.nodes) <==> t == a || t == b)
            && DownstreamTasks(g, b) == []
            && forall p, t :: IsTask(g, t) && Edge(p, t) in g.edges ==> !IsTask(g, p)
  {
    TwoTasksFound(Fork(start, a, b, end), start, a, b, end);
    ForkAcyclic(start, a, b, end);
    ForkTasksApart(start, a, b, end);
    TasksAgree(Fork(start, a, b, end));
  }

  lemma OpenTaskLeft(g: Graph, s: State, t: Id, other: Id)
    requires Valid(g) && Inv(g, s) && Tracks(g, s, []) && IsTask(g, t) && t != other
    ensures !OthersDone(s.rows, other)
  {
    TasksAgree(g);
    assert t in s.rows && s.rows[t].status != Completed;
  }

  /** A first submit of `a` is accepted, completes `a` alone, and leaves the revision alone. */
  lemma ForkFirst(start: Id, a: Id, b: Id, end: Id, states: seq<State>, calls: seq<Call>)
    requires Different(start, a, b, end) && IsRun(Fork(start, a, b, end), states, calls)
    requires |calls| > 0 && calls[0] == Submit(a, map[], None)
    ensures var g := Fork(start, a, b, end);
            && Succeeds(g, states, calls, 0) && states[1].revision == states[0].revision
            && Tracks(g, states[1], [] + [a])
  {
    var g := Fork(start, a, b, end);
    ForkFacts(start, a, b, end);
    RunStarts(g, states, calls);
    RunInv(g, states, calls, 0);
    OpenTaskLeft(g, states[0], b, a);
    ForkSubmit(g, states, calls, 0, [], a);
  }

  /** A submit of `b` then completes the instance. */
  lemma ForkSecond(start: Id, a: Id, b: Id, end: Id, states: seq<State>, calls: seq<Call>)
    requires Different(start, a, b, end) && IsRun(Fork(start, a, b, end), states, calls)
    requires |calls| > 1 && calls[1] == Submit(b, map[], None) && Tracks(Fork(start, a, b, end), states[1], [] + [a])
    ensures Succeeds(Fork(start, a, b, end), states, calls, 1) && states[2].status == WfCompleted
  {
    var g := Fork(start, a, b, end);
    TwoTasksFound(g, start, a, b, end);
    ForkFacts(start, a, b, end);
    ForkSubmit(g, states, calls, 1, [] + [a], b);
    RunInv(g, states, calls, 2);
  }

  /** Sparing `b` then leads into limbo. */
  lemma ForkThird(start: Id, a: Id, b: Id, end: Id, states: seq<State>, calls: seq<Call>)
    requires Different(start, a, b, end) && IsRun(Fork(start, a, b, end), states, calls)
    requires |calls| > 2 && calls[2] == Reopen(b, None, "", false) && states[2].status == WfCompleted
    ensures Succeeds(Fork(start, a, b, end), states, calls, 2)
    ensures Limbo(Fork(start, a, b, end), states[3]) && Diverges(states[3])
  {
    var g := Fork(start, a, b, end);
    ForkFacts(start, a, b, end);
    RunMoves(g, states, calls, 2);
    LimboExactly(g, states[2], calls[2]);
    StatusDivergesExactly(g, states[2], calls[2]);
  }

  /**
   * A run of three accepted calls on the fork. The first leaves the revision as it was; after the last one every
   * task is completed, the instance counts as running, and the projection shows it as completed.
   */
  lemma ForkEndsInLimbo(start: Id, a: Id, b: Id, end: Id, metadata: Record, seeds: map<Id, Record>)
    returns (states: seq<State>)
    requires Different(start, a, b, end)
    ensures var g := Fork(start, a, b, end);
            var calls := [Submit(a, map[], None), Submit(b, map[], None), Reopen(b, None, "", false)];
            && Published(g, start) && EndsTerminal(g)
            && IsRun(g, states, calls) && states[0] == StartWorkflow(g, metadata, seeds)
            && Succeeds(g, states, calls, 0) && Succeeds(g, states, calls, 1) && Succeeds(g, states, calls, 2)
            && states[1].revision == states[0].revision
            && Limbo(g, states[3]) && Diverges(states[3])
  {
    var calls := [Submit(a, map[], None), Submit(b, map[], None), Reopen(b, None, "", false)];
    ForkPublished(start, a, b, end);
    ForkFacts(start, a, b, end);
    states := RunExists(Fork(start, a, b, end), metadata, seeds, calls);
    ForkFirst(start, a, b, end, states, calls);
    ForkSecond(start, a, b, end, states, calls);
    ForkThird(start, a, b, end, states, calls);
  }

  lemma ReopenedFallsBehind(g: Graph, s: State, done: seq<Id>, t: Id)
    requires Valid(g) && Inv(g, s) && Tracks(g, s, done) && IsTask(g, t) && t in done
    ensures var call := Reopen(t, None, "", true);
            Refusal(g, s, call).None? && Behind(Apply(g, s, call), t)
  {
    TasksAgree(g);
    assert t in s.rows && s.rows[t].status == Completed;
    BehindExactly(g, s, Reopen(t, None, "", true), t);
  }

  lemma RunFallsBehind(g: Graph, states: seq<State>, calls: seq<Call>, k: nat, done: seq<Id>, t: Id)
    requires Valid(g) && IsRun(g, states, calls) && k < |calls| && calls[k] == Reopen(t, None, "", true)
    requires Tracks(g, states[k], done) && IsTask(g, t) && t in done
    ensures Succeeds(g, states, calls, k) && Behind(states[k + 1], t)
  {
    RunMoves(g, states, calls, k);
    ReopenedFallsBehind(g, states[k], done, t);
  }

  /** After two accepted calls on the fork, `a` is pending and the projection shows it as invalidated. */
  lemma ForkFallsBehind(start: Id, a: Id, b: Id, end: Id, metadata: Record, seeds: map<Id, Record>)
    returns (states: seq<State>)
    requires Different(start, a, b, end)
    ensures var g, calls := Fork(start, a, b, end), [Submit(a, map[], None), Reopen(a, None, "", true)];
            && Published(g, start) && EndsTerminal(g)
            && IsRun(g, states, calls) && states[0] == StartWorkflow(g, metadata, seeds)
            && Succeeds(g, states, calls, 0) && Succeeds(g, states, calls, 1)
            && a in states[2].rows && states[2].rows[a].status == Pending
            && Shown(states[2].models, a) == Some(Invalidated)
  {
    var calls := [Submit(a, map[], None), Reopen(a, None, "", true)];
    ForkPublished(start, a, b, end);
    ForkFacts(start, a, b, end);
    states := RunExists(Fork(start, a, b, end), metadata, seeds, calls);
    ForkFirst(start, a, b, end, states, calls);
    RunFallsBehind(Fork(start, a, b, end), states, calls, 1, [] + [a], a);
  }
}
