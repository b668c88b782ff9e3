/** The imperative orchestrator: one instance's stored fields, changed step by step, refining the engine. */
module Orchestrator {
  import opened Values
  import opened Graphs
  import opened GraphSearch
  import opened States
  import opened Executors
  import opened ReadModels
  import opened Engine
  import opened Coherence
  import opened Invariants

  /** One workflow instance as the repositories store it; every public method is one transaction. */
  class WorkflowInstance {
    const graph: Graph
    const seeds: map<Id, Record>
    var status: WorkflowStatus
    var revision: nat
    var rows: map<Id, Row>
    var log: seq<StoredEvent>
    var projection: Option<WorkflowState>
    var values: map<Id, Record>
    var metadata: Record

    /** The abstract state these fields stand for. */
    ghost function View(): State
      reads this
    {
      State(status, revision, rows, log, Reads(projection, values), metadata, seeds)
    }

    /** Rows are the task nodes of a well-formed graph. */
    ghost predicate Valid()
      reads this
    {
      WellFormed(graph) && RowsAreTasks(graph, View())
    }

    // ----- event store and handlers -----

    /** `WorkflowProjectionHandler.handle`: read, reduce, write back. */
    method HandleWorkflowProjection(stored: StoredEvent)
      modifies this`projection
      ensures projection ==
              Some(Reduce(if old(projection).Some? then old(projection).value else INITIAL_STATE, stored))
    {
      var current := if projection.Some? then projection.value else INITIAL_STATE;
      var updated := ApplyEvent(current, stored);
      projection := Some(updated);
    }

    /** `WorkflowNodeProjectionHandler.handle`: upsert on completion, empty an existing row on invalidation. */
    method HandleNodeProjection(stored: StoredEvent)
      modifies this`values
      ensures values == Materialise(old(values), stored.event)
    {
      if stored.event.NodeInvalidated? {
        if stored.event.node in values {
          values := values[stored.event.node := map[]];
        }
      } else if stored.event.NodeCompleted? {
        values := values[stored.event.node := stored.event.outputs];
      }
    }

    method DispatchEvent(stored: StoredEvent)
      modifies this`projection, this`values
      ensures Reads(projection, values) == Dispatch(Reads(old(projection), old(values)), stored)
    {
      HandleWorkflowProjection(stored);
      HandleNodeProjection(stored);
    }

    /** `EventStore.append` with no concurrent writer. */
    method AppendEvent(e: Event)
      modifies this`log, this`projection, this`values
      ensures View() == Append(old(View()), e)
    {
      var stored := StoredEvent(NextSequence(log), e);
      log := log + [stored];
      DispatchEvent(stored);
    }

    /** `ProjectionRebuilder.rebuild`: whatever the read models held, replay the whole log from nothing. */
    method Rebuild() returns (count: nat)
      modifies this`projection, this`values
      ensures View() == old(View()).(models := Replay(old(log)))
      ensures count == |log|
      ensures old(View()).models == Replay(old(log)) ==> View() == old(View())
    {
      projection, values := None, map[];
      assert log[..0] == [];
      for k := 0 to |log|
        invariant log == old(log) && Reads(projection, values) == Replay(log[..k])
        invariant View() == old(View()).(models := Reads(projection, values))
      {
        assert log[..k + 1][..k] == log[..k];
        DispatchEvent(log[k]);
      }
      assert log[..|log|] == log;
      count := |log|;
    }

    // ----- row and instance updates -----

    /** `update_node_status`: refuses a move that the transition table does not allow. */
    method UpdateNodeStatus(t: Id, to: NodeStatus) returns (ok: bool)
      requires t in rows
      modifies this`rows
      ensures ok <==> NodeMay(old(rows)[t].status, to)
      ensures rows == if ok then old(rows)[t := old(rows)[t].(status := to)] else old(rows)
    {
      ok := NodeMay(rows[t].status, to);
      if ok {
        rows := rows[t := rows[t].(status := to)];
      }
    }

    /** `create_node_execution`: the next number, appended to the history. */
    method CreateNodeExecution(t: Id, inputs: Record, outputs: Record)
      requires t in rows
      modifies this`rows
      ensures var row := old(rows)[t];
              var x := Execution(row.currentExecution + 1, inputs, outputs);
              rows == old(rows)[t := row.(currentExecution := x.number, executions := row.executions + [x])]
    {
      var number := rows[t].currentExecution + 1;
      rows := rows[t := rows[t].(currentExecution := number)];
      rows := rows[t := rows[t].(executions := rows[t].executions + [Execution(number, inputs, outputs)])];
    }

    method UpdateWorkflowStatus(to: WorkflowStatus)
      modifies this`status, this`revision
      ensures View() == old(View()).(status := to, revision := old(revision) + 1)
    {
      status := to;
      revision := revision + 1;
    }

    /** `_sync_current_total_metadata`. */
    method SyncCurrentTotal()
      modifies this`metadata
      ensures View() == SyncTotal(old(View()))
    {
      var total := if projection.Some? then projection.value.total else None;
      metadata := metadata[CURRENT_TOTAL := if total.Some? then Num(Round2(total.value)) else Null];
    }

    // ----- scheduler -----

    method PredecessorsSatisfied(t: Id) returns (satisfied: bool)
      requires NoDangling(graph)
      ensures satisfied <==> DirectReady(graph, rows, t)
    {
      var sources := Sources(graph.edges, t);
      for k := 0 to |sources|
        invariant forall i :: 0 <= i < k && IsTask(graph, sources[i]) ==>
                    sources[i] in rows && rows[sources[i]].status == Completed
      {
        var p := sources[k];
        if IsTask(graph, p) && (p !in rows || rows[p].status != Completed) {
          AdjacencyExact(graph.edges, p, t);
          return false;
        }
      }
      forall p | Edge(p, t) in graph.edges && IsTask(graph, p)
        ensures p in rows && rows[p].status == Completed
      {
        AdjacencyExact(graph.edges, p, t);
      }
      return true;
    }

    method ReadyTaskNodes() returns (ready: seq<Id>)
      requires NoDangling(graph)
      ensures ready == ReadyAmong(graph, rows, TaskIds(graph.nodes))
    {
      var tasks := TaskIds(graph.nodes);
      ready := [];
      for k := 0 to |tasks|
        invariant ready == ReadyAmong(graph, rows, tasks[..k])
      {
        var t := tasks[k];
        assert tasks[..k + 1][..k] == tasks[..k];
        if t in rows && rows[t].status != Waiting && rows[t].status != Invalidated {
          continue;
        }
        var satisfied := PredecessorsSatisfied(t);
        if satisfied {
          ready := ready + [t];
        }
      }
      assert tasks[..|tasks|] == tasks;
    }

    method AllTasksCompleted() returns (all: bool)
      ensures all <==> AllDone(graph, rows)
    {
      var tasks := TaskIds(graph.nodes);
      for k := 0 to |tasks|
        invariant forall i :: 0 <= i < k ==> tasks[i] in rows && rows[tasks[i]].status == Completed
      {
        if tasks[k] !in rows || rows[tasks[k]].status != Completed {
          return false;
        }
      }
      return true;
    }

    /** The loop of `_advance`: promote each ready row and report it. */
    method PromoteReady(ready: seq<Id>)
      requires NoRepeats(ready)
      requires forall t :: t in ready ==> t in rows && (rows[t].status == Waiting || rows[t].status == Invalidated)
      modifies this`rows, this`log, this`projection, this`values
      ensures View() == PromoteAll(old(View()), ready)
    {
      ghost var start := View();
      for k := 0 to |ready|
        invariant forall t :: t in ready[..k] ==> t in start.rows
        invariant View() == PromoteAll(start, ready[..k])
      {
        var t := ready[k];
        PromoteAllExact(start, ready[..k]);
        assert ready[..k + 1][..k] == ready[..k];
        assert t in ready && t !in ready[..k];
        var ok := UpdateNodeStatus(t, Pending);
        AppendEvent(NodeReady(t));
      }
      assert ready[..|ready|] == ready;
    }

    /** `_advance`. */
    method AdvanceInstance()
      requires Valid()
      modifies this`status, this`revision, this`rows, this`log, this`projection, this`values
      ensures View() == Advance(graph, old(View())) && Valid()
    {
      if status != WfRunning {
        return;
      }
      var ready := ReadyTaskNodes();
      TasksAgree(graph);
      ReadyAmongNoRepeats(graph, rows, TaskIds(graph.nodes));
      PromoteReady(ready);
      var all := AllTasksCompleted();
      if all {
        UpdateWorkflowStatus(WfCompleted);
        AppendEvent(WorkflowCompletedEvent);
      }
    }

    // ----- input binding -----

    /** `DbNodeProjectionReader` and `UpstreamInputResolver` for one binding, or the metadata lookup. */
    method ResolveBinding(b: Binding) returns (value: Option<Value>)
      ensures value == BindingValue(View(), b)
    {
      match b.source
      case Metadata(key) =>
        return if key in metadata then Some(metadata[key]) else None;
      case Upstream(source, outputKey) =>
        if outputKey == "" || source !in rows || rows[source].status != Completed {
          return None;
        }
        if source !in values || values[source] == map[] {
          return None;
        }
        return if outputKey in values[source] then Some(values[source][outputKey]) else None;
    }

    /** `GraphInputBinder.resolve`: the first binding that cannot be resolved aborts. */
    method BindInputs(bindings: seq<Binding>) returns (inputs: Option<Record>, locked: set<string>)
      ensures inputs == Bind(View(), bindings)
      ensures inputs.Some? ==> locked == LockedKeys(bindings)
    {
      var bound: Record := map[];
      locked := {};
      for k := 0 to |bindings|
        invariant BindUpTo(View(), bindings, k) == Some(bound)
        invariant forall key :: key in locked <==>
                    exists i :: 0 <= i < k && bindings[i].locked && bindings[i].inputKey == key
      {
        var value := ResolveBinding(bindings[k]);
        if value.None? {
          UnresolvedAborts(View(), bindings, k, |bindings|);
          return None, locked;
        }
        bound := bound[bindings[k].inputKey := value.value];
        if bindings[k].locked {
          locked := locked + {bindings[k].inputKey};
        }
      }
      inputs := Some(bound);
    }

    // ----- service calls -----

    /** An exception rolls the whole call back. */
    method RollBack(s: State)
      requires s.seeds == seeds
      modifies this
      ensures View() == s
    {
      status, revision, rows, log := s.status, s.revision, s.rows, s.log;
      projection, values, metadata := s.models.workflow, s.models.values, s.metadata;
    }

    /** `start_workflow`. */
    constructor (graph: Graph, metadata: Record, seeds: map<Id, Record>)
      requires WellFormed(graph)
      ensures Valid() && this.graph == graph
      ensures View() == StartWorkflow(graph, metadata, seeds)
    {
      this.graph, this.seeds, this.metadata := graph, seeds, metadata;
      status, revision := WfPending, 1;
      rows := map t | t in TaskIds(graph.nodes) :: Row(Waiting, 0, []);
      log, projection, values := [], None, map[];
      new;
      Launch();
    }

    /** From the freshly built rows to a running instance. */
    method Launch()
      requires WellFormed(graph) && View() == Built(graph, metadata, seeds)
      modifies this
      ensures Valid() && View() == StartWorkflow(graph, old(metadata), seeds)
    {
      AppendEvent(WorkflowStarted);
      UpdateWorkflowStatus(WfRunning);
      assert rows == old(rows);
      AdvanceInstance();
      SyncCurrentTotal();
    }

    method BeginNode(t: Id)
      requires t in rows && rows[t].status == Pending
      modifies this`rows, this`log, this`projection, this`values
      ensures View() == Begin(old(View()), t)
      ensures t in rows && rows[t] == old(rows[t]).(status := Running)
    {
      var ok := UpdateNodeStatus(t, Running);
      AppendEvent(NodeStarted(t, rows[t].currentExecution + 1));
    }

    method FinishNode(t: Id, inputs: Record, final: Record)
      requires t in rows && rows[t].status == Running && IsTask(graph, t)
      modifies this`rows, this`log, this`projection, this`values
      ensures View() == Finish(graph, old(View()), t, inputs, final)
    {
      CreateNodeExecution(t, inputs, final);
      var ok := UpdateNodeStatus(t, Completed);
      assert rows == old(rows)[t := rows[t]];
      AppendEvent(NodeCompleted(t, rows[t].currentExecution, final, CostOf(DefinitionOf(graph, t), final)));
    }

    /** The accepted part of a submit: run the executor between two status updates. */
    method Execute(t: Id, outputs: Record, inputs: Record, locked: set<string>) returns (done: bool)
      requires Valid() && IsTask(graph, t) && t in rows && rows[t].status == Pending
      requires Bind(View(), InputsOf(graph, t)) == Some(inputs) && locked == LockedKeys(InputsOf(graph, t))
      modifies this
      ensures done <==> Executable(graph, old(View()), t, outputs)
      ensures View() == if done then Worked(graph, old(View()), t, outputs) else old(View())
    {
      var saved := State(status, revision, rows, log, Reads(projection, values), metadata, seeds);
      BeginNode(t);
      var final := Run(DefinitionOf(graph, t), Context(inputs, locked, SeedsFor(seeds, t)), outputs);
      if final.None? {
        RollBack(saved);
        return false;
      }
      FinishNode(t, inputs, final.value);
      SyncCurrentTotal();
      done := true;
    }

    /** `submit_node_outputs`. */
    method SubmitNodeOutputs(t: Id, outputs: Record, expected: Option<int>) returns (error: Option<Error>)
      requires Valid()
      modifies this
      ensures Valid()
      ensures var step := SubmitStep(graph, old(View()), t, outputs, expected);
              if step.Ok? then error.None? && View() == step.value
              else error == Some(step.error) && View() == old(View())
    {
      if status != WfRunning {
        return Some(InvalidTransition);
      }
      if expected.Some? && expected.value != revision {
        return Some(VersionConflict);
      }
      if FindNode(graph.nodes, t).None? {
        return Some(UnknownNode);
      }
      if !IsTask(graph, t) {
        return Some(NodeExecution);
      }
      if t !in rows {
        return Some(UnknownNode);
      }
      if rows[t].status != Pending {
        return Some(UpstreamNotReady);
      }
      var inputs, locked := BindInputs(InputsOf(graph, t));
      if inputs.None? {
        return Some(InputResolution);
      }
      var done := Execute(t, outputs, inputs.value, locked);
      if !done {
        return Some(FieldValidation);
      }
      AdvanceInstance();
      return None;
    }

    /** `_change_workflow_status`. */
    method ChangeWorkflowStatus(target: WorkflowStatus, e: Event, expected: Option<int>) returns (error: Option<Error>)
      requires Valid()
      modifies this`status, this`revision, this`log, this`projection, this`values
      ensures var step := ChangeStatus(old(View()), target, e, expected);
              if step.Ok? then error.None? && View() == step.value
              else error == Some(step.error) && View() == old(View())
    {
      if !WorkflowMay(status, target) {
        return Some(InvalidTransition);
      } else if expected.Some? && expected.value != revision {
        return Some(VersionConflict);
      }
      assert StatusRefusal(View(), target, expected).None?;
      UpdateWorkflowStatus(target);
      AppendEvent(e);
      return None;
    }

    method PauseWorkflow(expected: Option<int>) returns (error: Option<Error>)
      requires Valid()
      modifies this
      ensures Valid()
      ensures var step := ChangeStatus(old(View()), WfPaused, WorkflowPausedEvent, expected);
              if step.Ok? then error.None? && View() == step.value
              else error == Some(step.error) && View() == old(View())
    {
      error := ChangeWorkflowStatus(WfPaused, WorkflowPausedEvent, expected);
    }

    method ResumeWorkflow(expected: Option<int>) returns (error: Option<Error>)
      requires Valid()
      modifies this
      ensures Valid()
      ensures var step := ResumeStep(graph, old(View()), expected);
              if step.Ok? then error.None? && View() == step.value
              else error == Some(step.error) && View() == old(View())
    {
      error := ChangeWorkflowStatus(WfRunning, WorkflowResumed, expected);
      if error.None? {
        AdvanceInstance();
      }
    }

    method CancelWorkflow(expected: Option<int>, reason: string) returns (error: Option<Error>)
      requires Valid()
      modifies this
      ensures Valid()
      ensures var step := CancelStep(old(View()), expected, reason);
              if step.Ok? then error.None? && View() == step.value
              else error == Some(step.error) && View() == old(View())
    {
      error := ChangeWorkflowStatus(WfCancelled, WorkflowCancelledEvent, expected);
      if error.None? && reason != "" {
        metadata := metadata[TERMINATION_REASON := Text(reason)];
      }
    }

    /** `_invalidate_downstream_nodes`. */
    method InvalidateDownstreamNodes(t: Id, reason: string) returns (invalidated: seq<Id>)
      requires Valid()
      modifies this`rows, this`log, this`projection, this`values
      ensures View() == InvalidateAll(old(View()), DownstreamTasks(graph, t), reason)
      ensures |log| == |old(log)| + |invalidated|
    {
      ghost var start := View();
      var listed := DownstreamTaskNodes(graph, t);
      var tasks := listed.value;
      invalidated := [];
      for k := 0 to |tasks|
        invariant View() == InvalidateAll(start, tasks[..k], reason)
        invariant |log| == |start.log| + |invalidated|
      {
        var u := tasks[k];
        assert tasks[..k + 1][..k] == tasks[..k];
        if u in rows && Invalidatable(rows[u]) {
          var ok := UpdateNodeStatus(u, Invalidated);
          AppendEvent(NodeInvalidated(u, reason));
          invalidated := invalidated + [u];
        }
      }
      assert tasks[..|tasks|] == tasks;
    }

    /** The first half of `reopen_from_task`: the target, then everything after it. */
    method Unwind(t: Id, reason: string, reopenTarget: bool) returns (affected: seq<Id>)
      requires Valid() && t in rows
      modifies this`rows, this`log, this`projection, this`values
      ensures View() == Unwound(graph, old(View()), t, reason, reopenTarget)
      ensures |log| == |old(log)| + |affected|
    {
      affected := [];
      if reopenTarget && rows[t].status == Completed {
        var ok := UpdateNodeStatus(t, Pending);
        AppendEvent(NodeInvalidated(t, reason));
        affected := [t];
      }
      var invalidated := InvalidateDownstreamNodes(t, reason);
      affected := affected + invalidated;
    }

    method CheckReopen(t: Id, expected: Option<int>, reopenTarget: bool) returns (error: Option<Error>)
      requires Valid()
      ensures error == ReopenRefusal(graph, View(), t, expected, reopenTarget)
    {
      if status != WfRunning && status != WfCompleted {
        return Some(InvalidTransition);
      }
      if expected.Some? && expected.value != revision {
        return Some(VersionConflict);
      }
      if FindNode(graph.nodes, t).None? {
        return Some(UnknownNode);
      }
      if !IsTask(graph, t) {
        return Some(NodeExecution);
      }
      TasksAgree(graph);
      if reopenTarget && rows[t].status != Completed && rows[t].status != Pending && rows[t].status != Invalidated {
        return Some(InvalidTransition);
      }
      return None;
    }

    /** The bookkeeping of `reopen_from_task` once every check has passed. */
    method Rework(t: Id, reason: string, reopenTarget: bool) returns (affected: seq<Id>)
      requires Valid() && t in rows && (status == WfRunning || status == WfCompleted)
      modifies this
      ensures affected != [] <==> |Unwound(graph, old(View()), t, reason, reopenTarget).log| > |old(log)|
      ensures affected != [] ==> View() == Reworked(graph, old(View()), t, reason, reopenTarget)
      ensures affected == [] ==>
                View() ==
                if old(status) == WfCompleted then old(View()).(status := WfRunning, revision := old(revision) + 1)
                else old(View())
      ensures Valid()
    {
      affected := Unwind(t, reason, reopenTarget);
      NoLogNoChange(graph, old(View()), t, reason, reopenTarget);
      if status == WfCompleted {
        UpdateWorkflowStatus(WfRunning);
      } else if affected != [] {
        revision := revision + 1;
      }
      if affected != [] {
        SyncCurrentTotal();
      }
    }

    /** `reopen_from_task`. */
    method ReopenFromTask(t: Id, expected: Option<int>, reason: string, reopenTarget: bool)
      returns (error: Option<Error>)
      requires Valid()
      modifies this
      ensures Valid()
      ensures var step := ReopenStep(graph, old(View()), t, expected, reason, reopenTarget);
              if step.Ok? then error.None? && View() == step.value
              else error == Some(step.error) && View() == old(View())
    {
      error := CheckReopen(t, expected, reopenTarget);
      if error.None? {
        var affected := Rework(t, reason, reopenTarget);
        if affected != [] {
          AdvanceInstance();
        }
      }
    }

    /** Any service call is one step of the engine. */
    method Serve(call: Call) returns (error: Option<Error>)
      requires Valid()
      modifies this
      ensures Valid()
      ensures View() == Apply(graph, old(View()), call)
      ensures error.None? <==> Step(graph, old(View()), call).Ok?
      ensures Invariants.Valid(graph) && Inv(graph, old(View())) ==> Inv(graph, View())
    {
      ghost var before := View();
      match call {
        case Submit(t, outputs, expected) => error := SubmitNodeOutputs(t, outputs, expected);
        case Pause(expected) => error := PauseWorkflow(expected);
        case Resume(expected) => error := ResumeWorkflow(expected);
        case Cancel(expected, reason) => error := CancelWorkflow(expected, reason);
        case Reopen(t, expected, reason, reopenTarget) => error := ReopenFromTask(t, expected, reason, reopenTarget);
      }
      if Invariants.Valid(graph) && Inv(graph, before) {
        StepInv(graph, before, call);
      }
    }
  }

  lemma {:induction false} UnresolvedAborts(s: State, bindings: seq<Binding>, k: nat, n: nat)
    requires k < n <= |bindings| && BindingValue(s, bindings[k]).None?
    ensures BindUpTo(s, bindings, n).None?
  {
    if k < n - 1 {
      UnresolvedAborts(s, bindings, k, n - 1);
    }
  }

  lemma NoLogNoChange(g: Graph, s: State, t: Id, reason: string, reopenTarget: bool)
    requires t in s.rows
    ensures |Unwound(g, s, t, reason, reopenTarget).log| == |s.log| ==> Unwound(g, s, t, reason, reopenTarget) == s
    ensures Unwound(g, s, t, reason, reopenTarget).status == s.status
    ensures Unwound(g, s, t, reason, reopenTarget).revision == s.revision
  {
    if reopenTarget {
      ReopenTargetExact(s, t, reason);
    }
    InvalidateAllExact(if reopenTarget then ReopenTarget(s, t, reason) else s, DownstreamTasks(g, t), reason);
  }
}
