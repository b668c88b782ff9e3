/** The event log and the read models derived from it. */
module ReadModels {
  import opened Values
  import opened States

  datatype Event =
    | WorkflowStarted
    | WorkflowPausedEvent
    | WorkflowResumed
    | WorkflowCompletedEvent
    | WorkflowCancelledEvent
    | NodeReady(node: Id)
    | NodeStarted(node: Id, number: nat)
    | NodeCompleted(node: Id, number: nat, outputs: Record, cost: Option<real>)
    | NodeFailed(node: Id, number: nat)
    | NodeInvalidated(node: Id, reason: string)

  datatype StoredEvent = StoredEvent(sequence: nat, event: Event)

  /** One entry of the projected `nodes` dictionary; absent keys are `None`. */
  datatype NodeState = NodeState(
    status: NodeStatus,
    number: Option<nat>,
    outputs: Option<Record>,
    cost: Option<real>,
    reason: Option<string>)

  datatype WorkflowState = WorkflowState(
    status: WorkflowStatus,
    lastSequence: nat,
    nodes: map<Id, NodeState>,
    total: Option<real>)

  /** The workflow projection (absent before the first event) and the value rows per node. */
  datatype Reads = Reads(workflow: Option<WorkflowState>, values: map<Id, Record>)

  const INITIAL_STATE := WorkflowState(WfPending, 0, map[], None)
  const NO_READS := Reads(None, map[])

  // ----- the reducer -----

  predicate Contributes(n: NodeState) {
    n.status == Completed && n.cost.Some?
  }

  ghost function Contributions(nodes: map<Id, NodeState>): map<Id, real> {
    map id | id in nodes && Contributes(nodes[id]) :: nodes[id].cost.value
  }

  /** The rounded sum of the contributions of completed nodes; nothing if none contributes. */
  ghost function TotalOf(contributions: map<Id, real>): Option<real> {
    if contributions == map[] then None else Some(Round2(Sum(contributions)))
  }

  /** A key that the event does not carry keeps its old value. */
  function Merged(
    nodes: map<Id, NodeState>, id: Id, status: NodeStatus, number: Option<nat>, outputs: Option<Record>,
    cost: Option<real>): NodeState
  {
    var prev := if id in nodes then nodes[id] else NodeState(status, None, None, None, None);
    NodeState(
      status,
      if number.Some? then number else prev.number,
      if outputs.Some? then outputs else prev.outputs,
      if cost.Some? then cost else prev.cost,
      prev.reason)
  }

  function Cleared(nodes: map<Id, NodeState>, id: Id, reason: string): NodeState {
    var prev := if id in nodes then nodes[id] else NodeState(Invalidated, None, None, None, None);
    NodeState(Invalidated, prev.number, None, None, Some(reason))
  }

  /** The arm of one event, before any total is recomputed. */
  function Patched(state: WorkflowState, stored: StoredEvent): WorkflowState {
    var s := state.(lastSequence := stored.sequence);
    match stored.event
    case WorkflowStarted => s.(status := WfRunning)
    case WorkflowPausedEvent => s.(status := WfPaused)
    case WorkflowResumed => s.(status := WfRunning)
    case WorkflowCompletedEvent => s.(status := WfCompleted)
    case WorkflowCancelledEvent => s.(status := WfCancelled)
    case NodeReady(id) =>
      s.(nodes := s.nodes[id := Merged(s.nodes, id, Pending, None, None, None)])
    case NodeStarted(id, number) =>
      s.(nodes := s.nodes[id := Merged(s.nodes, id, Running, Some(number), None, None)])
    case NodeCompleted(id, number, outputs, cost) =>
      s.(nodes := s.nodes[id := Merged(s.nodes, id, Completed, Some(number), Some(outputs), cost)])
    case NodeFailed(id, number) =>
      s.(nodes := s.nodes[id := Merged(s.nodes, id, Failed, Some(number), None, None)])
    case NodeInvalidated(id, reason) =>
      s.(nodes := s.nodes[id := Cleared(s.nodes, id, reason)])
  }

  /** Only completions and invalidations recompute the total. */
  predicate Retotals(e: Event) {
    e.NodeCompleted? || e.NodeInvalidated?
  }

  ghost function Reduce(state: WorkflowState, stored: StoredEvent): WorkflowState {
    var s := Patched(state, stored);
    if Retotals(stored.event) then s.(total := TotalOf(Contributions(s.nodes))) else s
  }

  /** `_recompute_total`: the dictionary may be walked in any order. */
  method RecomputeTotal(nodes: map<Id, NodeState>) returns (total: Option<real>)
    ensures total == TotalOf(Contributions(nodes))
  {
    var sum := 0.0;
    var found := false;
    var todo := nodes.Keys;
    ghost var all := Contributions(nodes);
    assert all - (nodes.Keys - todo) == all;
    while todo != {}
      invariant todo <= nodes.Keys
      invariant Sum(all) == sum + Sum(all - (nodes.Keys - todo))
      invariant found <==> exists id :: id in all && id !in todo
    {
      var id :| id in todo;
      ghost var left := all - (nodes.Keys - todo);
      assert all - (nodes.Keys - (todo - {id})) == left - {id};
      if Contributes(nodes[id]) {
        SumSplit(left, id);
        sum := sum + nodes[id].cost.value;
        found := true;
      } else {
        assert left - {id} == left;
      }
      todo := todo - {id};
    }
    assert all - (nodes.Keys - todo) == map[];
    total := if found then Some(Round2(sum)) else None;
  }

  /** `apply_workflow_projection_event`: patch a copy of the state, then recompute its total if need be. */
  method ApplyEvent(state: WorkflowState, stored: StoredEvent) returns (next: WorkflowState)
    ensures next == Reduce(state, stored)
  {
    next := Patched(state, stored);
    if Retotals(stored.event) {
      var total := RecomputeTotal(next.nodes);
      next := next.(total := total);
    }
  }

  // ----- dispatch and replay -----

  /** A completed node replaces its value row; an invalidated one empties it, but only if it exists. */
  function Materialise(values: map<Id, Record>, event: Event): map<Id, Record> {
    match event
    case NodeCompleted(id, _, outputs, _) => values[id := outputs]
    case NodeInvalidated(id, _) => if id in values then values[id := map[]] else values
    case _ => values
  }

  /** Both projection handlers, in registration order. */
  ghost function Dispatch(models: Reads, stored: StoredEvent): Reads {
    var current := if models.workflow.Some? then models.workflow.value else INITIAL_STATE;
    Reads(Some(Reduce(current, stored)), Materialise(models.values, stored.event))
  }

  ghost function Replay(log: seq<StoredEvent>): Reads {
    if log == [] then NO_READS
    else Dispatch(Replay(log[..|log| - 1]), log[|log| - 1])
  }

  ghost predicate Numbered(log: seq<StoredEvent>) {
    forall i :: 0 <= i < |log| ==> log[i].sequence == i + 1
  }

  /** The highest number among the first `k` events, 0 if there are none. */
  function MaxSequence(log: seq<StoredEvent>, k: nat): nat
    requires k <= |log|
  {
    if k == 0 then 0
    else
      var before := MaxSequence(log, k - 1);
      if log[k - 1].sequence > before then log[k - 1].sequence else before
  }

  /** `coalesce(max(sequence_number), 0) + 1`. */
  function NextSequence(log: seq<StoredEvent>): nat {
    MaxSequence(log, |log|) + 1
  }

  lemma {:induction false} MaxWhenNumbered(log: seq<StoredEvent>, k: nat)
    requires Numbered(log) && k <= |log|
    ensures MaxSequence(log, k) == k
  {
    if k == 0 {
    } else {
      MaxWhenNumbered(log, k - 1);
    }
  }

  lemma NumberedNext(log: seq<StoredEvent>)
    requires Numbered(log)
    ensures NextSequence(log) == |log| + 1
  {
    MaxWhenNumbered(log, |log|);
  }
}
