/** How far back readiness reaches: the scheduler looks at direct predecessors only. */
module Readiness {
  import opened Values
  import opened Graphs
  import opened Acyclicity
  import opened States
  import opened Engine
  import opened Coherence
  import opened Invariants
  import opened Ordering
  import opened Theorems

  // ----- published graphs -----

  /** What the topology and wiring validators accept, on distinct node ids. */
  ghost predicate Published(g: Graph, start: Id) {
    && Valid(g)
    && FindNode(g.nodes, start).Some? && FindNode(g.nodes, start).value.kind.StartNode?
    && (forall x :: x in NodeIds(g) && FindNode(g.nodes, x).Some? && FindNode(g.nodes, x).value.kind.StartNode? ==>
          x == start)
    && (forall x :: x in NodeIds(g) ==> x == start || Reaches(g.edges, start, x))
  }

  /** No edge leaves an end node; the validators do not check this. */
  ghost predicate EndsTerminal(g: Graph) {
    forall e :: e in g.edges && FindNode(g.nodes, e.source).Some? ==> !FindNode(g.nodes, e.source).value.kind.EndNode?
  }

  // ----- tasks linked by tasks -----

  ghost predicate IsTaskPath(g: Graph, p: seq<Id>, a: Id, t: Id) {
    PathBetween(g.edges, p, a, t) && forall i :: 0 <= i < |p| ==> IsTask(g, p[i])
  }

  /** Some path from `a` to `t` visits only tasks, both ends included. */
  ghost predicate Linked(g: Graph, a: Id, t: Id) {
    exists p :: IsTaskPath(g, p, a, t)
  }

  /** Wherever a path leads from a task to a task, one does so through tasks only. */
  ghost predicate TasksLinked(g: Graph) {
    forall a, t :: IsTask(g, a) && IsTask(g, t) && Reaches(g.edges, a, t) ==> Linked(g, a, t)
  }

  lemma LinkedReaches(g: Graph, a: Id, t: Id)
    requires Linked(g, a, t)
    ensures Reaches(g.edges, a, t) && IsTask(g, a) && IsTask(g, t)
  {
    var p :| IsTaskPath(g, p, a, t);
    assert IsTask(g, p[0]) && IsTask(g, p[|p| - 1]);
  }

  lemma EdgeLinks(g: Graph, a: Id, t: Id)
    requires Edge(a, t) in g.edges && IsTask(g, a) && IsTask(g, t)
    ensures Linked(g, a, t)
  {
    assert IsTaskPath(g, [a, t], a, t);
  }

  lemma EdgeLinksFurther(g: Graph, a: Id, b: Id, t: Id)
    requires Edge(a, b) in g.edges && IsTask(g, a) && Linked(g, b, t)
    ensures Linked(g, a, t)
  {
    var p :| IsTaskPath(g, p, b, t);
    var q := [a] + p;
    forall i | 0 <= i < |q| - 1
      ensures Edge(q[i], q[i + 1]) in g.edges
    {
      if i > 0 {
        assert Edge(p[i - 1], p[i - 1 + 1]) in g.edges;
      }
    }
    assert IsTaskPath(g, q, a, t);
  }

  /** On a published graph whose end nodes have no successors, every inner node of a path is a task. */
  lemma InnerNodesAreTasks(g: Graph, start: Id, a: Id, x: Id, b: Id)
    requires Published(g, start) && EndsTerminal(g)
    requires Edge(a, x) in g.edges && Edge(x, b) in g.edges
    ensures IsTask(g, x)
  {
    NodeIdsAgree(g, x);
    assert Edge(x, b).source in NodeIds(g);
    assert Edge(a, x).source in NodeIds(g);
    if x == start {
      EdgeReaches(g.edges, a, x);
      if a != start {
        ReachesTransitive(g.edges, start, a, start);
      }
    }
  }

  /** Where end nodes are terminal, all tasks are linked. */
  lemma EndsTerminalLinks(g: Graph, start: Id)
    requires Published(g, start) && EndsTerminal(g)
    ensures TasksLinked(g)
  {
    forall a, t | IsTask(g, a) && IsTask(g, t) && Reaches(g.edges, a, t)
      ensures Linked(g, a, t)
    {
      var p :| PathBetween(g.edges, p, a, t);
      forall i | 0 < i < |p| - 1
        ensures IsTask(g, p[i])
      {
        assert Edge(p[i - 1], p[i - 1 + 1]) in g.edges && Edge(p[i], p[i + 1]) in g.edges;
        InnerNodesAreTasks(g, start, p[i - 1], p[i], p[i + 1]);
      }
      assert IsTaskPath(g, p, a, t);
    }
  }

  // ----- linked ancestors are completed -----

  lemma {:induction false} TaskPathCompleted(g: Graph, s: State, p: seq<Id>)
    requires Inv(g, s) && |p| >= 2 && IsTaskPath(g, p, p[0], p[|p| - 1])
    requires var t := p[|p| - 1]; t in s.rows && Reached(s.rows[t])
    ensures p[0] in s.rows && s.rows[p[0]].status == Completed
    decreases |p|
  {
    var n := |p|;
    assert Edge(p[n - 2], p[n - 2 + 1]) in g.edges && IsTask(g, p[n - 2]);
    assert DirectReady(g, s.rows, p[n - 1]);
    if n == 2 {
    } else {
      var q := p[..n - 1];
      assert IsTaskPath(g, q, q[0], q[|q| - 1]);
      TaskPathCompleted(g, s, q);
    }
  }

  /** Every linked ancestor of a pending or completed task is completed. */
  lemma UpstreamReadiness(g: Graph, s: State, a: Id, t: Id)
    requires Inv(g, s) && Linked(g, a, t) && t in s.rows && Reached(s.rows[t])
    ensures a in s.rows && s.rows[a].status == Completed
  {
    var p :| IsTaskPath(g, p, a, t);
    TaskPathCompleted(g, s, p);
  }

  /** An upstream binding of a pending task reads its linked source's latest outputs; it fails only on an absent key. */
  lemma PendingBindingsResolve(g: Graph, s: State, t: Id, i: nat)
    requires Inv(g, s) && t in s.rows && s.rows[t].status == Pending && IsTask(g, t)
    requires i < |InputsOf(g, t)| && InputsOf(g, t)[i].source.Upstream?
    requires Linked(g, InputsOf(g, t)[i].source.node, t)
    ensures var source, key := InputsOf(g, t)[i].source.node, InputsOf(g, t)[i].source.outputKey;
            && source in s.rows && s.rows[source].executions != []
            && var outputs := Latest(s.rows[source]).outputs;
            BindingValue(s, InputsOf(g, t)[i]) == if key != "" && key in outputs then Some(outputs[key]) else None
  {
    var source := InputsOf(g, t)[i].source.node;
    UpstreamReadiness(g, s, source, t);
    assert RowAgrees(g, s.rows, s.log, s.models, source);
  }

  // ----- the states that one start leads to -----

  /** Some calls lead from the start state `first` to `s`. */
  ghost predicate RunsTo(g: Graph, first: State, s: State) {
    exists states, calls :: IsRun(g, states, calls) && states[0] == first && states[|calls|] == s
  }

  lemma RunsToInv(g: Graph, first: State, s: State)
    requires Valid(g) && RunsTo(g, first, s)
    ensures Inv(g, s)
  {
    var states, calls :| IsRun(g, states, calls) && states[0] == first && states[|calls|] == s;
    RunInv(g, states, calls, |calls|);
  }

  lemma RunsToNext(g: Graph, first: State, s: State, call: Call, next: State)
    requires RunsTo(g, first, s) && RowsAreTasks(g, s) && next == Apply(g, s, call)
    ensures RunsTo(g, first, next)
  {
    var states, calls :| IsRun(g, states, calls) && states[0] == first && states[|calls|] == s;
    RunGrows(g, states, calls, call, next);
    assert (states + [next])[|calls + [call]|] == next && (states + [next])[0] == first;
  }

  lemma RunGrows(g: Graph, states: seq<State>, calls: seq<Call>, call: Call, next: State)
    requires IsRun(g, states, calls) && RowsAreTasks(g, states[|calls|]) && next == Apply(g, states[|calls|], call)
    ensures IsRun(g, states + [next], calls + [call])
  {
    var longer, more := states + [next], calls + [call];
    forall i | 0 <= i < |longer|
      ensures Arises(g, longer, more, i)
    {
      assert i < |states| ==> Arises(g, states, calls, i);
    }
  }

  lemma StartRuns(g: Graph, first: State)
    requires IsStart(g, first)
    ensures RunsTo(g, first, first)
  {
    var states, calls: seq<Call> := [first], [];
    assert IsRun(g, states, calls) && states[|calls|] == first;
  }

  // ----- completing nothing but the linked ancestors -----

  /** Some outputs are accepted for this task now. */
  ghost predicate Accepts(g: Graph, s: State, u: Id)
    requires IsTask(g, u)
  {
    exists outputs :: Executable(g, s, u, outputs)
  }

  /** Along every run from this start, a linked ancestor of `t` that is pending accepts some outputs. */
  ghost predicate WillingBefore(g: Graph, first: State, t: Id) {
    forall s, u :: RunsTo(g, first, s) && s.status == WfRunning
                   && Linked(g, u, t) && u in s.rows && s.rows[u].status == Pending ==>
                     IsTask(g, u) && Accepts(g, s, u)
  }

  ghost predicate OnlyLinkedDone(g: Graph, rows: map<Id, Row>, t: Id) {
    forall u :: u in rows && rows[u].status == Completed ==> Linked(g, u, t)
  }

  ghost function OpenBefore(g: Graph, rows: map<Id, Row>, t: Id): set<Id> {
    set u | u in rows && rows[u].status != Completed && Linked(g, u, t)
  }

  /** An uncompleted linked ancestor that is already pending. */
  lemma PendingBefore(g: Graph, s: State, t: Id) returns (u: Id)
    requires Valid(g) && Inv(g, s) && OpenBefore(g, s.rows, t) != {}
    ensures u in s.rows && s.rows[u].status == Pending && Linked(g, u, t) && u in OpenBefore(g, s.rows, t)
  {
    TasksAgree(g);
    u := MinimumExists(g.edges, OpenBefore(g, s.rows, t));
    forall p | Edge(p, u) in g.edges && IsTask(g, p)
      ensures p in s.rows && s.rows[p].status == Completed
    {
      EdgeLinksFurther(g, p, u, t);
      assert p in s.rows;
      assert p !in OpenBefore(g, s.rows, t);
    }
    assert DirectReady(g, s.rows, u);
  }

  /** One accepted submit of such an ancestor keeps the instance running and everything else as open as before. */
  lemma SubmitBefore(g: Graph, s: State, t: Id, u: Id, outputs: Record)
    requires Valid(g) && Inv(g, s) && s.status == WfRunning && IsTask(g, t)
    requires OnlyLinkedDone(g, s.rows, t) && u in OpenBefore(g, s.rows, t)
    requires s.rows[u].status == Pending && IsTask(g, u) && Executable(g, s, u, outputs)
    ensures var next := Apply(g, s, Submit(u, outputs, None));
            && next.status == WfRunning && OnlyLinkedDone(g, next.rows, t)
            && OpenBefore(g, next.rows, t) < OpenBefore(g, s.rows, t)
  {
    TasksAgree(g);
    assert SubmitRefusal(g, s, u, outputs, None).None?;
    SubmitExact(g, s, u, outputs, None);
    NeverLinkedToItself(g, t);
    assert t in s.rows && t != u && s.rows[t].status != Completed;
    var next := Apply(g, s, Submit(u, outputs, None));
    assert !OthersDone(s.rows, u);
    SubmitShrinks(g, s.rows, Worked(g, s, u, outputs).rows, next.rows, t, u);
  }

  lemma NeverLinkedToItself(g: Graph, t: Id)
    requires Acyclic(g.edges)
    ensures !Linked(g, t, t)
  {
    if Linked(g, t, t) {
      LinkedReaches(g, t, t);
    }
  }

  lemma SubmitShrinks(g: Graph, rows: map<Id, Row>, worked: map<Id, Row>, next: map<Id, Row>, t: Id, u: Id)
    requires OnlyLinkedDone(g, rows, t) && u in OpenBefore(g, rows, t)
    requires u in worked && worked == rows[u := worked[u]] && worked[u].status == Completed
    requires next.Keys == rows.Keys && forall x :: x in rows ==> next[x] == Promoted(g, worked, x)
    ensures OnlyLinkedDone(g, next, t) && OpenBefore(g, next, t) < OpenBefore(g, rows, t)
  {
    assert u !in OpenBefore(g, next, t);
  }

  /** All linked ancestors of `t` can be completed, and nothing else. */
  lemma {:induction false} CompleteBefore(g: Graph, first: State, s: State, t: Id)
    returns (last: State)
    requires Valid(g) && IsTask(g, t) && WillingBefore(g, first, t)
    requires RunsTo(g, first, s) && s.status == WfRunning && OnlyLinkedDone(g, s.rows, t)
    ensures RunsTo(g, first, last) && OnlyLinkedDone(g, last.rows, t)
    ensures OpenBefore(g, last.rows, t) == {}
    decreases OpenBefore(g, s.rows, t)
  {
    RunsToInv(g, first, s);
    if OpenBefore(g, s.rows, t) == {} {
      last := s;
    } else {
      var u := PendingBefore(g, s, t);
      assert IsTask(g, u) && Accepts(g, s, u);
      var outputs :| Executable(g, s, u, outputs);
      SubmitBefore(g, s, t, u, outputs);
      var next := Apply(g, s, Submit(u, outputs, None));
      RunsToNext(g, first, s, Submit(u, outputs, None), next);
      last := CompleteBefore(g, first, next, t);
    }
  }

  lemma StartOpen(g: Graph, first: State, t: Id)
    requires Valid(g) && IsTask(g, t) && IsStart(g, first) && Inv(g, first)
    ensures first.status == WfRunning && forall u :: u in first.rows ==> first.rows[u].status != Completed
  {
    var metadata, seeds :| first == StartWorkflow(g, metadata, seeds);
    StartTracks(g, metadata, seeds);
    TasksAgree(g);
    assert t in first.rows;
  }

  /** Where all linked ancestors are completed, the task itself is pending. */
  lemma PendingThen(g: Graph, s: State, t: Id)
    requires Valid(g) && Inv(g, s) && IsTask(g, t)
    requires OnlyLinkedDone(g, s.rows, t) && OpenBefore(g, s.rows, t) == {}
    ensures t in s.rows && s.rows[t].status == Pending
  {
    TasksAgree(g);
    NeverLinkedToItself(g, t);
    forall p | Edge(p, t) in g.edges && IsTask(g, p)
      ensures p in s.rows && s.rows[p].status == Completed
    {
      EdgeLinks(g, p, t);
      assert p in s.rows;
      assert p !in OpenBefore(g, s.rows, t);
    }
    assert DirectReady(g, s.rows, t);
  }

  // ----- exactly how far readiness reaches -----

  ghost predicate Awaits(rows: map<Id, Row>, a: Id, t: Id) {
    t in rows && Reached(rows[t]) ==> a in rows && rows[a].status == Completed
  }

  /** Along every run from this start, `t` is never pending or completed before `a` is completed. */
  ghost predicate AlwaysAwaits(g: Graph, first: State, a: Id, t: Id) {
    forall s {:trigger RunsTo(g, first, s)} ::
      RunsTo(g, first, s) ==> Awaits(s.rows, a, t)
  }

  /** One pair of tasks: `t` always waits for `a` exactly when some path from `a` to `t` visits only tasks. */
  lemma ReadinessOfPair(g: Graph, first: State, a: Id, t: Id)
    requires Valid(g) && IsStart(g, first) && IsTask(g, t) && WillingBefore(g, first, t)
    ensures AlwaysAwaits(g, first, a, t) <==> Linked(g, a, t)
  {
    if Linked(g, a, t) {
      forall s | RunsTo(g, first, s)
        ensures Awaits(s.rows, a, t)
      {
        RunsToInv(g, first, s);
        if t in s.rows && Reached(s.rows[t]) {
          UpstreamReadiness(g, s, a, t);
        }
      }
    } else {
      StartRuns(g, first);
      RunsToInv(g, first, first);
      StartOpen(g, first, t);
      var last := CompleteBefore(g, first, first, t);
      RunsToInv(g, first, last);
      PendingThen(g, last, t);
      assert !Awaits(last.rows, a, t);
    }
  }

  ghost predicate SourcesDone(g: Graph, rows: map<Id, Row>, u: Id)
    requires IsTask(g, u)
  {
    forall i :: 0 <= i < |InputsOf(g, u)| && InputsOf(g, u)[i].source.Upstream? ==>
      var source := InputsOf(g, u)[i].source.node;
      source in rows && rows[source].status == Completed
  }

  /** Along every run from this start, a pending task whose sources are all completed accepts some outputs. */
  ghost predicate Willing(g: Graph, first: State) {
    forall s, u {:trigger RunsTo(g, first, s), s.rows[u]} ::
      RunsTo(g, first, s) && s.status == WfRunning
      && u in s.rows && s.rows[u].status == Pending && IsTask(g, u) && SourcesDone(g, s.rows, u) ==>
        Accepts(g, s, u)
  }

  ghost predicate HasUnlinked(g: Graph, t: Id) {
    exists a :: IsTask(g, a) && Reaches(g.edges, a, t) && !Linked(g, a, t)
  }

  /** In an acyclic graph every non-empty finite set has an element that no other one reaches. */
  lemma {:induction false} FirstByReach(edges: seq<Edge>, s: set<Id>) returns (t: Id)
    requires Acyclic(edges) && s != {}
    ensures t in s && forall u :: u in s ==> !Reaches(edges, u, t)
    decreases s
  {
    t :| t in s;
    var before := set u | u in s && Reaches(edges, u, t);
    if before == {} {
      assert forall u :: u in s ==> u !in before;
    } else {
      assert t !in before;
      var last := t;
      t := FirstByReach(edges, before);
      forall u | u in s
        ensures !Reaches(edges, u, t)
      {
        if Reaches(edges, u, t) {
          ReachesTransitive(edges, u, t, last);
        }
      }
    }
  }

  /** Once a task whose ancestors are all linked is pending, its sources are completed. */
  lemma LinkedSourcesDone(g: Graph, s: State, u: Id)
    requires Wired(g) && Inv(g, s) && IsTask(g, u) && !HasUnlinked(g, u) && u in s.rows && Reached(s.rows[u])
    ensures SourcesDone(g, s.rows, u)
  {
    forall i | 0 <= i < |InputsOf(g, u)| && InputsOf(g, u)[i].source.Upstream?
      ensures var source := InputsOf(g, u)[i].source.node; source in s.rows && s.rows[source].status == Completed
    {
      UpstreamReadiness(g, s, InputsOf(g, u)[i].source.node, u);
    }
  }

  lemma WillingBeforeFirst(g: Graph, first: State, t: Id)
    requires Valid(g) && Willing(g, first)
    requires forall u :: IsTask(g, u) && Reaches(g.edges, u, t) ==> !HasUnlinked(g, u)
    ensures WillingBefore(g, first, t)
  {
    forall s, u | RunsTo(g, first, s) && s.status == WfRunning
                  && Linked(g, u, t) && u in s.rows && s.rows[u].status == Pending
      ensures IsTask(g, u) && Accepts(g, s, u)
    {
      RunsToInv(g, first, s);
      LinkedReaches(g, u, t);
      LinkedSourcesDone(g, s, u);
    }
  }

  /**
   * Readiness reaches all ancestor tasks, on every run from this start, exactly on graphs whose tasks are linked
   * by tasks, provided that a pending task with completed sources can be completed.
   */
  lemma ReadinessExactly(g: Graph, first: State)
    requires Valid(g) && IsStart(g, first) && Willing(g, first)
    ensures (forall a, t :: IsTask(g, a) && IsTask(g, t) && Reaches(g.edges, a, t) ==>
                              AlwaysAwaits(g, first, a, t))
            <==> TasksLinked(g)
  {
    if TasksLinked(g) {
      forall a, t, s | Linked(g, a, t) && RunsTo(g, first, s)
        ensures Awaits(s.rows, a, t)
      {
        RunsToInv(g, first, s);
        if t in s.rows && Reached(s.rows[t]) {
          UpstreamReadiness(g, s, a, t);
        }
      }
    } else {
      TasksAgree(g);
      var unlinked := set t | t in TaskIds(g.nodes) && HasUnlinked(g, t);
      var a0, t0 :| IsTask(g, a0) && IsTask(g, t0) && Reaches(g.edges, a0, t0) && !Linked(g, a0, t0);
      assert t0 in unlinked;
      var t := FirstByReach(g.edges, unlinked);
      var a :| IsTask(g, a) && Reaches(g.edges, a, t) && !Linked(g, a, t);
      WillingBeforeFirst(g, first, t);
      ReadinessOfPair(g, first, a, t);
    }
  }

  // ----- graphs of open forms -----

  /** Every task is a form without inputs and without a declared output that accepts anything. */
  ghost predicate OpenForms(g: Graph) {
    forall u :: IsTask(g, u) ==>
                  && InputsOf(g, u) == [] && DefinitionOf(g, u).UserInput? && DefinitionOf(g, u).output == None
                  && forall outputs :: DefinitionOf(g, u).acceptsForm(outputs)
  }

  lemma OpenFormExecutable(g: Graph, s: State, u: Id, outputs: Record)
    requires OpenForms(g) && IsTask(g, u)
    ensures Executable(g, s, u, outputs)
  {
    assert Bind(s, InputsOf(g, u)) == Some(map[]);
  }

  /** Such graphs are willing from every start, so the exact condition applies to them. */
  lemma OpenFormsWilling(g: Graph, first: State)
    requires OpenForms(g)
    ensures Willing(g, first)
  {
    forall s, u | RunsTo(g, first, s) && IsTask(g, u)
      ensures Accepts(g, s, u)
    {
      OpenFormExecutable(g, s, u, map[]);
    }
  }
}
