/** Agreement between task rows, execution history, event log and read models, step by step. */
module Coherence {
  import opened Values
  import opened Graphs
  import opened States
  import opened Executors
  import opened ReadModels
  import opened Engine

  // ----- what agrees with what -----

  ghost function Latest(row: Row): Execution
    requires row.executions != []
  {
    row.executions[|row.executions| - 1]
  }

  ghost predicate HistoryOk(row: Row) {
    && |row.executions| == row.currentExecution
    && (forall i :: 0 <= i < |row.executions| ==> row.executions[i].number == i + 1)
    && (row.status == Completed ==> row.executions != [])
    && (row.status == Waiting ==> row.executions == [])
  }

  /** The projected entry and the value row of one task, as its row status demands. */
  ghost predicate NodeAgrees(g: Graph, t: Id, row: Row, nodes: map<Id, NodeState>, values: map<Id, Record>)
    requires IsTask(g, t) && HistoryOk(row)
  {
    match row.status
    case Waiting => t !in nodes && t !in values
    case Pending =>
      && t in nodes && (nodes[t].status == Pending || nodes[t].status == Invalidated)
      && nodes[t].outputs == None && nodes[t].cost == None
      && (t in values ==> values[t] == map[])
    case Running =>
      && t in nodes && nodes[t].status == Running && nodes[t].outputs == None && nodes[t].cost == None
      && (t in values ==> values[t] == map[])
    case Completed =>
      && t in nodes && nodes[t].status == Completed
      && nodes[t].number == Some(row.currentExecution)
      && nodes[t].outputs == Some(Latest(row).outputs)
      && nodes[t].cost == CostOf(DefinitionOf(g, t), Latest(row).outputs)
      && t in values && values[t] == Latest(row).outputs
    case Invalidated =>
      && t in nodes && nodes[t].status == Invalidated && nodes[t].outputs == None && nodes[t].cost == None
      && (t in values ==> values[t] == map[])
    case Failed => false
  }

  /** The completion events of one task, oldest first. */
  ghost function CompletionsOf(log: seq<StoredEvent>, t: Id): seq<Event> {
    if log == [] then []
    else
      var e := log[|log| - 1].event;
      var before := CompletionsOf(log[..|log| - 1], t);
      if e.NodeCompleted? && e.node == t then before + [e] else before
  }

  /** Executions and completion events of a task match one to one. */
  ghost predicate HistoryLogged(g: Graph, log: seq<StoredEvent>, t: Id, row: Row)
    requires IsTask(g, t)
  {
    var events := CompletionsOf(log, t);
    && |events| == |row.executions|
    && forall i :: 0 <= i < |events| ==>
         events[i] == NodeCompleted(t, row.executions[i].number, row.executions[i].outputs,
                                    CostOf(DefinitionOf(g, t), row.executions[i].outputs))
  }

  ghost predicate RowAgrees(g: Graph, rows: map<Id, Row>, log: seq<StoredEvent>, models: Reads, t: Id)
    requires models.workflow.Some? && t in rows
  {
    && IsTask(g, t)
    && HistoryOk(rows[t])
    && NodeAgrees(g, t, rows[t], models.workflow.value.nodes, models.values)
    && HistoryLogged(g, log, t, rows[t])
  }

  /** The read models are the replay of the log and agree with the rows; the total is up to date. */
  ghost predicate Agreement(g: Graph, rows: map<Id, Row>, log: seq<StoredEvent>, models: Reads) {
    && (forall t :: t in rows <==> t in TaskIds(g.nodes))
    && Numbered(log) && models == Replay(log)
    && models.workflow.Some?
    && var w := models.workflow.value;
    && w.lastSequence == |log|
    && w.nodes.Keys <= rows.Keys && models.values.Keys <= rows.Keys
    && w.total == TotalOf(Contributions(w.nodes))
    && forall t {:trigger RowAgrees(g, rows, log, models, t)} :: t in rows ==> RowAgrees(g, rows, log, models, t)
  }

  ghost predicate Coherent(g: Graph, s: State) {
    Agreement(g, s.rows, s.log, s.models)
  }

  // ----- one append -----

  lemma AppendNumbered(s: State, e: Event)
    requires Numbered(s.log) && s.models == Replay(s.log)
    ensures var next := Append(s, e);
            && next.log == s.log + [StoredEvent(|s.log| + 1, e)]
            && Numbered(next.log) && next.models == Replay(next.log)
            && (s.models.workflow.Some? ==>
                  var reduced := Reduce(s.models.workflow.value, StoredEvent(|s.log| + 1, e));
                  next.models == Reads(Some(reduced), Materialise(s.models.values, e)))
  {
    NumberedNext(s.log);
    var next := Append(s, e);
    assert next.log[..|next.log| - 1] == s.log;
  }

  predicate AboutNode(e: Event) {
    e.NodeReady? || e.NodeStarted? || e.NodeCompleted? || e.NodeInvalidated?
  }

  lemma CompletionsAppend(log: seq<StoredEvent>, stored: StoredEvent, t: Id)
    ensures CompletionsOf(log + [stored], t) ==
            if stored.event.NodeCompleted? && stored.event.node == t then CompletionsOf(log, t) + [stored.event]
            else CompletionsOf(log, t)
  {
    assert (log + [stored])[..|log|] == log;
  }

  /** Workflow-level events leave every agreement alone. */
  lemma WorkflowEventCoherent(g: Graph, s: State, e: Event)
    requires Coherent(g, s) && !AboutNode(e) && !e.NodeFailed?
    ensures Coherent(g, Append(s, e))
  {
    AppendNumbered(s, e);
    var next := Append(s, e);
    forall t | t in next.rows
      ensures RowAgrees(g, next.rows, next.log, next.models, t)
    {
      assert RowAgrees(g, s.rows, s.log, s.models, t);
      CompletionsAppend(s.log, StoredEvent(|s.log| + 1, e), t);
    }
  }

  /** Only the entry of `id` changes, the workflow status stays, and the total is up to date. */
  ghost predicate OnlyNode(
    id: Id, w: WorkflowState, values: map<Id, Record>, next: WorkflowState, after: map<Id, Record>)
  {
    && next.nodes.Keys == w.nodes.Keys + {id} && after.Keys <= values.Keys + {id}
    && (forall t :: t != id && t in w.nodes ==> next.nodes[t] == w.nodes[t])
    && (forall t :: t != id ==> (t in after <==> t in values) && (t in values ==> after[t] == values[t]))
    && next.status == w.status
    && next.total == TotalOf(Contributions(next.nodes))
  }

  lemma NodeEventFrame(w: WorkflowState, values: map<Id, Record>, stored: StoredEvent)
    requires AboutNode(stored.event)
    requires w.total == TotalOf(Contributions(w.nodes))
    requires stored.event.NodeReady? || stored.event.NodeStarted? ==>
               stored.event.node in w.nodes ==> w.nodes[stored.event.node].status != Completed
    ensures OnlyNode(stored.event.node, w, values, Reduce(w, stored), Materialise(values, stored.event))
    ensures Reduce(w, stored).lastSequence == stored.sequence
  {
    if stored.event.NodeReady? || stored.event.NodeStarted? {
      assert Contributions(Reduce(w, stored).nodes) == Contributions(w.nodes);
    }
  }

  lemma OthersAgree(g: Graph, s: State, next: State, id: Id, stored: StoredEvent, t: Id)
    requires s.models.workflow.Some? && next.models.workflow.Some? && t in s.rows && t in next.rows && t != id
    requires RowAgrees(g, s.rows, s.log, s.models, t) && next.rows[t] == s.rows[t]
    requires AboutNode(stored.event) && stored.event.node == id && next.log == s.log + [stored]
    requires OnlyNode(id, s.models.workflow.value, s.models.values, next.models.workflow.value, next.models.values)
    ensures RowAgrees(g, next.rows, next.log, next.models, t)
  {
    CompletionsAppend(s.log, stored, t);
  }

  /** How the event fits the row's history: only a completion adds an execution, and it reports that one. */
  ghost predicate HistoryStep(g: Graph, before: Row, row: Row, e: Event)
    requires AboutNode(e) && IsTask(g, e.node)
  {
    if e.NodeCompleted? then
      && row.executions != []
      && row.executions[..|row.executions| - 1] == before.executions
      && var x := Latest(row);
      e == NodeCompleted(e.node, x.number, x.outputs, CostOf(DefinitionOf(g, e.node), x.outputs))
    else row.executions == before.executions
  }

  lemma HistoryGrows(g: Graph, log: seq<StoredEvent>, before: Row, row: Row, stored: StoredEvent)
    requires AboutNode(stored.event) && IsTask(g, stored.event.node)
    requires HistoryLogged(g, log, stored.event.node, before) && HistoryStep(g, before, row, stored.event)
    ensures HistoryLogged(g, log + [stored], stored.event.node, row)
  {
    CompletionsAppend(log, stored, stored.event.node);
  }

  /** A row update and its event keep coherence as soon as they agree with each other on that one task. */
  lemma CoherentFrom(
    g: Graph, s: State, next: State, id: Id, stored: StoredEvent, w: WorkflowState, values: map<Id, Record>)
    requires Coherent(g, s) && id in s.rows && next.rows.Keys == s.rows.Keys
    requires forall t :: t in s.rows && t != id ==> next.rows[t] == s.rows[t]
    requires AboutNode(stored.event) && stored.event.node == id && next.log == s.log + [stored]
    requires Numbered(next.log) && next.models == Replay(next.log) && next.models == Reads(Some(w), values)
    requires w.lastSequence == |next.log|
    requires OnlyNode(id, s.models.workflow.value, s.models.values, w, values)
    requires HistoryOk(next.rows[id]) && IsTask(g, id) && HistoryStep(g, s.rows[id], next.rows[id], stored.event)
    requires NodeAgrees(g, id, next.rows[id], w.nodes, values)
    ensures Coherent(g, next) && next.models.workflow.value.status == s.models.workflow.value.status
  {
    forall t | t in next.rows
      ensures RowAgrees(g, next.rows, next.log, next.models, t)
    {
      assert RowAgrees(g, s.rows, s.log, s.models, t);
      if t == id {
        HistoryGrows(g, s.log, s.rows[id], next.rows[id], stored);
      } else {
        OthersAgree(g, s, next, id, stored, t);
      }
    }
  }

  /** A row update and the event that reports it, checked on the one task they are about. */
  lemma TouchCoherent(g: Graph, s: State, t: Id, row: Row, e: Event)
    requires Coherent(g, s) && t in s.rows && IsTask(g, t) && HistoryOk(row)
    requires AboutNode(e) && e.node == t && HistoryStep(g, s.rows[t], row, e)
    requires var w := s.models.workflow.value;
             && (e.NodeReady? || e.NodeStarted? ==> t in w.nodes ==> w.nodes[t].status != Completed)
             && NodeAgrees(g, t, row, Reduce(w, StoredEvent(|s.log| + 1, e)).nodes, Materialise(s.models.values, e))
    ensures var next := Touch(s, t, row, e);
            && Coherent(g, next)
            && next.models.workflow.value.status == s.models.workflow.value.status
            && next.models.workflow.value == Reduce(s.models.workflow.value, StoredEvent(|s.log| + 1, e))
  {
    var mid, stored := s.(rows := s.rows[t := row]), StoredEvent(|s.log| + 1, e);
    AppendNumbered(mid, e);
    NodeEventFrame(s.models.workflow.value, s.models.values, stored);
    var w, values := Reduce(s.models.workflow.value, stored), Materialise(s.models.values, e);
    CoherentFrom(g, s, Append(mid, e), t, stored, w, values);
  }

  // ----- the engine's own steps -----

  lemma PromoteAgrees(
    g: Graph, t: Id, row: Row, w: WorkflowState, values: map<Id, Record>, sequence: nat)
    requires IsTask(g, t) && HistoryOk(row) && NodeAgrees(g, t, row, w.nodes, values)
    requires row.status == Waiting || row.status == Invalidated
    ensures var next, stored := row.(status := Pending), StoredEvent(sequence, NodeReady(t));
            HistoryOk(next) && NodeAgrees(g, t, next, Reduce(w, stored).nodes, Materialise(values, stored.event))
    ensures t in w.nodes ==> w.nodes[t].status != Completed
    ensures Reduce(w, StoredEvent(sequence, NodeReady(t))).total == w.total
  {
  }

  lemma PromoteCoherent(g: Graph, s: State, t: Id)
    requires Coherent(g, s) && t in s.rows && (s.rows[t].status == Waiting || s.rows[t].status == Invalidated)
    ensures var next := Touch(s, t, s.rows[t].(status := Pending), NodeReady(t));
            && Coherent(g, next)
            && next.models.workflow.value.status == s.models.workflow.value.status
            && next.models.workflow.value.total == s.models.workflow.value.total
  {
    assert RowAgrees(g, s.rows, s.log, s.models, t);
    var row, stored := s.rows[t].(status := Pending), StoredEvent(|s.log| + 1, NodeReady(t));
    PromoteAgrees(g, t, s.rows[t], s.models.workflow.value, s.models.values, |s.log| + 1);
    TouchCoherent(g, s, t, row, stored.event);
  }

  lemma InvalidateAgrees(
    g: Graph, t: Id, row: Row, w: WorkflowState, values: map<Id, Record>, sequence: nat, reason: string)
    requires IsTask(g, t) && HistoryOk(row) && NodeAgrees(g, t, row, w.nodes, values)
    requires Invalidatable(row)
    ensures var next, stored := row.(status := Invalidated), StoredEvent(sequence, NodeInvalidated(t, reason));
            HistoryOk(next) && NodeAgrees(g, t, next, Reduce(w, stored).nodes, Materialise(values, stored.event))
  {
  }

  lemma InvalidateCoherent(g: Graph, s: State, t: Id, reason: string)
    requires Coherent(g, s) && t in s.rows && Invalidatable(s.rows[t])
    ensures var next := Touch(s, t, s.rows[t].(status := Invalidated), NodeInvalidated(t, reason));
            && Coherent(g, next)
            && next.models.workflow.value.status == s.models.workflow.value.status
  {
    assert RowAgrees(g, s.rows, s.log, s.models, t);
    var row, stored := s.rows[t].(status := Invalidated), StoredEvent(|s.log| + 1, NodeInvalidated(t, reason));
    InvalidateAgrees(g, t, s.rows[t], s.models.workflow.value, s.models.values, |s.log| + 1, reason);
    TouchCoherent(g, s, t, row, stored.event);
  }

  lemma UndoAgrees(
    g: Graph, t: Id, row: Row, w: WorkflowState, values: map<Id, Record>, sequence: nat, reason: string)
    requires IsTask(g, t) && HistoryOk(row) && NodeAgrees(g, t, row, w.nodes, values)
    requires row.status == Completed
    ensures var next, stored := row.(status := Pending), StoredEvent(sequence, NodeInvalidated(t, reason));
            HistoryOk(next) && NodeAgrees(g, t, next, Reduce(w, stored).nodes, Materialise(values, stored.event))
  {
  }

  lemma UndoCoherent(g: Graph, s: State, t: Id, reason: string)
    requires Coherent(g, s) && t in s.rows && s.rows[t].status == Completed
    ensures var next := Touch(s, t, s.rows[t].(status := Pending), NodeInvalidated(t, reason));
            && Coherent(g, next)
            && next.models.workflow.value.status == s.models.workflow.value.status
  {
    assert RowAgrees(g, s.rows, s.log, s.models, t);
    var row, stored := s.rows[t].(status := Pending), StoredEvent(|s.log| + 1, NodeInvalidated(t, reason));
    UndoAgrees(g, t, s.rows[t], s.models.workflow.value, s.models.values, |s.log| + 1, reason);
    TouchCoherent(g, s, t, row, stored.event);
  }

  lemma ReopenTargetCoherent(g: Graph, s: State, t: Id, reason: string)
    requires Coherent(g, s) && t in s.rows
    ensures var next := ReopenTarget(s, t, reason);
            && Coherent(g, next)
            && next.models.workflow.value.status == s.models.workflow.value.status
  {
    if s.rows[t].status == Completed {
      UndoCoherent(g, s, t, reason);
    }
  }

  lemma BeginAgrees(
    g: Graph, t: Id, row: Row, w: WorkflowState, values: map<Id, Record>, sequence: nat, number: nat)
    requires IsTask(g, t) && HistoryOk(row) && NodeAgrees(g, t, row, w.nodes, values)
    requires row.status == Pending
    ensures var next, stored := row.(status := Running), StoredEvent(sequence, NodeStarted(t, number));
            HistoryOk(next) && NodeAgrees(g, t, next, Reduce(w, stored).nodes, Materialise(values, stored.event))
    ensures t in w.nodes ==> w.nodes[t].status != Completed
  {
  }

  lemma BeginCoherent(g: Graph, s: State, t: Id)
    requires Coherent(g, s) && t in s.rows && s.rows[t].status == Pending
    ensures var next := Begin(s, t);
            && Coherent(g, next)
            && next.models.workflow.value.status == s.models.workflow.value.status
            && next.rows == s.rows[t := s.rows[t].(status := Running)]
  {
    assert RowAgrees(g, s.rows, s.log, s.models, t);
    var number := s.rows[t].currentExecution + 1;
    var row, stored := s.rows[t].(status := Running), StoredEvent(|s.log| + 1, NodeStarted(t, number));
    BeginAgrees(g, t, s.rows[t], s.models.workflow.value, s.models.values, |s.log| + 1, number);
    TouchCoherent(g, s, t, row, stored.event);
  }

  lemma FinishAgrees(
    g: Graph, t: Id, row: Row, w: WorkflowState, values: map<Id, Record>, sequence: nat, x: Execution)
    requires IsTask(g, t) && HistoryOk(row) && NodeAgrees(g, t, row, w.nodes, values)
    requires row.status == Running && x.number == row.currentExecution + 1
    ensures var next := Row(Completed, x.number, row.executions + [x]);
            var cost := CostOf(DefinitionOf(g, t), x.outputs);
            var stored := StoredEvent(sequence, NodeCompleted(t, x.number, x.outputs, cost));
            HistoryOk(next) && NodeAgrees(g, t, next, Reduce(w, stored).nodes, Materialise(values, stored.event))
  {
  }

  lemma FinishCoherent(g: Graph, s: State, t: Id, inputs: Record, final: Record)
    requires Coherent(g, s) && t in s.rows && s.rows[t].status == Running && IsTask(g, t)
    ensures var next := Finish(g, s, t, inputs, final);
            && Coherent(g, next)
            && next.models.workflow.value.status == s.models.workflow.value.status
  {
    assert RowAgrees(g, s.rows, s.log, s.models, t);
    var x := Execution(s.rows[t].currentExecution + 1, inputs, final);
    var row := Row(Completed, x.number, s.rows[t].executions + [x]);
    var cost := CostOf(DefinitionOf(g, t), x.outputs);
    var stored := StoredEvent(|s.log| + 1, NodeCompleted(t, x.number, x.outputs, cost));
    assert row.executions[..|row.executions| - 1] == s.rows[t].executions && Latest(row) == x;
    FinishAgrees(g, t, s.rows[t], s.models.workflow.value, s.models.values, |s.log| + 1, x);
    TouchCoherent(g, s, t, row, stored.event);
  }

  lemma CompleteCoherent(g: Graph, s: State, t: Id, inputs: Record, final: Record)
    requires Coherent(g, s) && t in s.rows && s.rows[t].status == Pending && IsTask(g, t)
    ensures var next := Complete(g, s, t, inputs, final);
            && Coherent(g, next)
            && next.models.workflow.value.status == s.models.workflow.value.status
  {
    BeginCoherent(g, s, t);
    FinishCoherent(g, Begin(s, t), t, inputs, final);
  }

  /** Promotion changes exactly the listed rows. */
  lemma {:induction false} PromoteAllExact(s: State, ready: seq<Id>)
    requires forall t :: t in ready ==> t in s.rows
    ensures var next := PromoteAll(s, ready);
            && (forall t :: t in s.rows ==>
                  next.rows[t] == if t in ready then s.rows[t].(status := Pending) else s.rows[t])
            && next == s.(rows := next.rows, log := next.log, models := next.models)
  {
    if ready == [] {
    } else {
      var front, t := ready[..|ready| - 1], ready[|ready| - 1];
      assert forall x :: x in ready <==> x in front || x == t;
      PromoteAllExact(s, front);
    }
  }

  /** Promotion appends exactly one NODE_READY per listed task, in list order. */
  lemma {:induction false} PromoteAllLog(s: State, ready: seq<Id>)
    requires forall t :: t in ready ==> t in s.rows
    ensures var next := PromoteAll(s, ready);
            && |next.log| == |s.log| + |ready| && s.log == next.log[..|s.log|]
            && (forall i :: 0 <= i < |ready| ==> next.log[|s.log| + i].event == NodeReady(ready[i]))
  {
    if ready == [] {
    } else {
      var front, t := ready[..|ready| - 1], ready[|ready| - 1];
      assert forall x :: x in ready <==> x in front || x == t;
      PromoteAllLog(s, front);
    }
  }

  lemma {:induction false} PromoteAllCoherent(g: Graph, s: State, ready: seq<Id>)
    requires Coherent(g, s) && NoRepeats(ready)
    requires forall t :: t in ready ==> t in s.rows && (s.rows[t].status == Waiting || s.rows[t].status == Invalidated)
    ensures var next := PromoteAll(s, ready);
            && Coherent(g, next)
            && next.models.workflow.value.status == s.models.workflow.value.status
            && next.models.workflow.value.total == s.models.workflow.value.total
  {
    if ready == [] {
    } else {
      var front, t := ready[..|ready| - 1], ready[|ready| - 1];
      PromoteAllExact(s, front);
      PromoteAllCoherent(g, s, front);
      assert t !in front && t in ready;
      PromoteCoherent(g, PromoteAll(s, front), t);
    }
  }

  /** Invalidation changes exactly the listed rows that had started or could start. */
  lemma {:induction false} InvalidateAllExact(s: State, tasks: seq<Id>, reason: string)
    ensures var next := InvalidateAll(s, tasks, reason);
            && (forall t :: t in s.rows ==>
                  next.rows[t] ==
                  if t in tasks && Invalidatable(s.rows[t]) then s.rows[t].(status := Invalidated) else s.rows[t])
            && next == s.(rows := next.rows, log := next.log, models := next.models)
            && |next.log| >= |s.log|
            && (|next.log| > |s.log| <==> exists t :: t in tasks && t in s.rows && Invalidatable(s.rows[t]))
            && (|next.log| == |s.log| ==> next == s)
  {
    if tasks == [] {
    } else {
      var front, t := tasks[..|tasks| - 1], tasks[|tasks| - 1];
      assert forall x :: x in tasks <==> x in front || x == t;
      InvalidateAllExact(s, front, reason);
    }
  }

  lemma {:induction false} InvalidateAllCoherent(g: Graph, s: State, tasks: seq<Id>, reason: string)
    requires Coherent(g, s)
    ensures var next := InvalidateAll(s, tasks, reason);
            && Coherent(g, next)
            && next.models.workflow.value.status == s.models.workflow.value.status
  {
    if tasks == [] {
    } else {
      var front, t := tasks[..|tasks| - 1], tasks[|tasks| - 1];
      InvalidateAllCoherent(g, s, front, reason);
      var before := InvalidateAll(s, front, reason);
      if t in before.rows && Invalidatable(before.rows[t]) {
        InvalidateCoherent(g, before, t, reason);
      }
    }
  }
}
