/** The workflow engine as a transition system: one instance, one service call per step. */
module Engine {
  import opened Values
  import opened Graphs
  import opened GraphSearch
  import opened States
  import opened Executors
  import opened ReadModels

  datatype Execution = Execution(number: nat, inputs: Record, outputs: Record)

  /** A task row together with its execution history. */
  datatype Row = Row(status: NodeStatus, currentExecution: nat, executions: seq<Execution>)

  datatype State = State(
    status: WorkflowStatus,
    revision: nat,
    rows: map<Id, Row>,
    log: seq<StoredEvent>,
    models: Reads,
    metadata: Record,
    seeds: map<Id, Record>)

  datatype Error =
    | InvalidTransition | VersionConflict | UnknownNode | NodeExecution
    | UpstreamNotReady | InputResolution | FieldValidation

  datatype Call =
    | Submit(node: Id, outputs: Record, expected: Option<int>)
    | Pause(expected: Option<int>)
    | Resume(expected: Option<int>)
    | Cancel(expected: Option<int>, reason: string)
    | Reopen(node: Id, expected: Option<int>, reason: string, reopenTarget: bool)

  const CURRENT_TOTAL := "currentTotal"
  const TERMINATION_REASON := "terminationReason"

  // ----- primitive updates -----

  ghost function Append(s: State, e: Event): State {
    var stored := StoredEvent(NextSequence(s.log), e);
    s.(log := s.log + [stored], models := Dispatch(s.models, stored))
  }

  /** A row update followed by the event that reports it. */
  ghost function Touch(s: State, id: Id, row: Row, e: Event): State {
    Append(s.(rows := s.rows[id := row]), e)
  }

  ghost function SyncTotal(s: State): State {
    var total := if s.models.workflow.Some? then s.models.workflow.value.total else None;
    s.(metadata := s.metadata[CURRENT_TOTAL := if total.Some? then Num(Round2(total.value)) else Null])
  }

  predicate Conflicts(s: State, expected: Option<int>) {
    expected.Some? && expected.value != s.revision
  }

  // ----- scheduling -----

  /** Every direct predecessor that is a task is completed. */
  ghost predicate DirectReady(g: Graph, rows: map<Id, Row>, t: Id) {
    forall p :: Edge(p, t) in g.edges && IsTask(g, p) ==> p in rows && rows[p].status == Completed
  }

  ghost predicate Ready(g: Graph, rows: map<Id, Row>, t: Id) {
    && (t in rows ==> rows[t].status == Waiting || rows[t].status == Invalidated)
    && DirectReady(g, rows, t)
  }

  ghost function ReadyAmong(g: Graph, rows: map<Id, Row>, tasks: seq<Id>): (ready: seq<Id>)
    ensures forall t :: t in ready <==> t in tasks && Ready(g, rows, t)
  {
    if tasks == [] then []
    else
      var front, last := tasks[..|tasks| - 1], tasks[|tasks| - 1];
      assert forall t :: t in tasks <==> t in front || t == last;
      if Ready(g, rows, last) then ReadyAmong(g, rows, front) + [last] else ReadyAmong(g, rows, front)
  }

  ghost predicate AllDone(g: Graph, rows: map<Id, Row>) {
    forall t :: t in TaskIds(g.nodes) ==> t in rows && rows[t].status == Completed
  }

  /** Rows in the list become pending, one NODE_READY each. */
  ghost function PromoteAll(s: State, ready: seq<Id>): State
    requires forall t :: t in ready ==> t in s.rows
    ensures PromoteAll(s, ready).rows.Keys == s.rows.Keys
  {
    if ready == [] then s
    else
      var before := PromoteAll(s, ready[..|ready| - 1]);
      var t := ready[|ready| - 1];
      Touch(before, t, before.rows[t].(status := Pending), NodeReady(t))
  }

  ghost predicate RowsAreTasks(g: Graph, s: State) {
    forall t :: t in s.rows <==> t in TaskIds(g.nodes)
  }

  ghost function Advance(g: Graph, s: State): State
    requires RowsAreTasks(g, s)
  {
    if s.status != WfRunning then s
    else
      var promoted := PromoteAll(s, ReadyAmong(g, s.rows, TaskIds(g.nodes)));
      if AllDone(g, promoted.rows) then
        Append(promoted.(status := WfCompleted, revision := promoted.revision + 1), WorkflowCompletedEvent)
      else promoted
  }

  // ----- starting -----

  /** Freshly built rows: every task waits. */
  ghost function Built(g: Graph, metadata: Record, seeds: map<Id, Record>): State {
    State(WfPending, 1, map t | t in TaskIds(g.nodes) :: Row(Waiting, 0, []), [], NO_READS, metadata, seeds)
  }

  ghost function Launched(g: Graph, metadata: Record, seeds: map<Id, Record>): State {
    Append(Built(g, metadata, seeds), WorkflowStarted).(status := WfRunning, revision := 2)
  }

  ghost function StartWorkflow(g: Graph, metadata: Record, seeds: map<Id, Record>): State {
    SyncTotal(Advance(g, Launched(g, metadata, seeds)))
  }

  // ----- submitting -----

  /** The value of an upstream binding: only a completed source with a non-empty projection answers. */
  ghost function UpstreamValue(s: State, source: Id, outputKey: string): Option<Value> {
    if source !in s.rows || s.rows[source].status != Completed then None
    else if source !in s.models.values || s.models.values[source] == map[] then None
    else if outputKey !in s.models.values[source] then None
    else Some(s.models.values[source][outputKey])
  }

  ghost function BindingValue(s: State, b: Binding): Option<Value> {
    match b.source
    case Metadata(key) => if key in s.metadata then Some(s.metadata[key]) else None
    case Upstream(node, outputKey) => if outputKey == "" then None else UpstreamValue(s, node, outputKey)
  }

  /** Later bindings of the same input key overwrite earlier ones. */
  ghost function BindUpTo(s: State, bindings: seq<Binding>, k: nat): Option<Record>
    requires k <= |bindings|
  {
    if k == 0 then Some(map[])
    else
      var before := BindUpTo(s, bindings, k - 1);
      var value := BindingValue(s, bindings[k - 1]);
      if before.None? || value.None? then None
      else Some(before.value[bindings[k - 1].inputKey := value.value])
  }

  ghost function Bind(s: State, bindings: seq<Binding>): Option<Record> {
    BindUpTo(s, bindings, |bindings|)
  }

  /** An input is locked as soon as one of its bindings is. */
  function LockedKeys(bindings: seq<Binding>): set<string> {
    set i | 0 <= i < |bindings| && bindings[i].locked :: bindings[i].inputKey
  }

  function SeedsFor(seeds: map<Id, Record>, t: Id): Record {
    if t in seeds then seeds[t] else map[]
  }

  function ContextOf(g: Graph, seeds: map<Id, Record>, t: Id, inputs: Record): Context
    requires IsTask(g, t)
  {
    Context(inputs, LockedKeys(InputsOf(g, t)), SeedsFor(seeds, t))
  }

  ghost function Begin(s: State, t: Id): State
    requires t in s.rows
    ensures t in Begin(s, t).rows
  {
    Touch(s, t, s.rows[t].(status := Running), NodeStarted(t, s.rows[t].currentExecution + 1))
  }

  ghost function Finish(g: Graph, s: State, t: Id, inputs: Record, final: Record): State
    requires t in s.rows && IsTask(g, t)
  {
    var x := Execution(s.rows[t].currentExecution + 1, inputs, final);
    var done := Row(Completed, x.number, s.rows[t].executions + [x]);
    Touch(s, t, done, NodeCompleted(t, x.number, x.outputs, CostOf(DefinitionOf(g, t), x.outputs)))
  }

  /** A pending row runs and completes: two row updates, one new execution, two events. */
  ghost function Complete(g: Graph, s: State, t: Id, inputs: Record, final: Record): State
    requires t in s.rows && IsTask(g, t)
  {
    Finish(g, Begin(s, t), t, inputs, final)
  }

  /** The inputs resolve and the executor accepts the outputs. */
  ghost predicate Executable(g: Graph, s: State, t: Id, outputs: Record)
    requires IsTask(g, t)
  {
    var inputs := Bind(s, InputsOf(g, t));
    inputs.Some? && Outcome(DefinitionOf(g, t), ContextOf(g, s.seeds, t, inputs.value), outputs).Some?
  }

  /** The state handed to the scheduler by an accepted submit. */
  ghost function Worked(g: Graph, s: State, t: Id, outputs: Record): State
    requires t in s.rows && IsTask(g, t) && Executable(g, s, t, outputs)
    ensures Worked(g, s, t, outputs).rows.Keys == s.rows.Keys
  {
    var inputs := Bind(s, InputsOf(g, t)).value;
    SyncTotal(Complete(g, s, t, inputs, Outcome(DefinitionOf(g, t), ContextOf(g, s.seeds, t, inputs), outputs).value))
  }

  /** The checks of a submit call, in order. */
  ghost function SubmitRefusal(g: Graph, s: State, t: Id, outputs: Record, expected: Option<int>): Option<Error> {
    if s.status != WfRunning then Some(InvalidTransition)
    else if Conflicts(s, expected) then Some(VersionConflict)
    else if FindNode(g.nodes, t).None? then Some(UnknownNode)
    else if !IsTask(g, t) then Some(NodeExecution)
    else if t !in s.rows then Some(UnknownNode)
    else if s.rows[t].status != Pending then Some(UpstreamNotReady)
    else if Bind(s, InputsOf(g, t)).None? then Some(InputResolution)
    else if !Executable(g, s, t, outputs) then Some(FieldValidation)
    else None
  }

  ghost function SubmitStep(g: Graph, s: State, t: Id, outputs: Record, expected: Option<int>): Result<State, Error>
    requires RowsAreTasks(g, s)
  {
    var refusal := SubmitRefusal(g, s, t, outputs, expected);
    if refusal.Some? then Err(refusal.value) else Ok(Advance(g, Worked(g, s, t, outputs)))
  }

  // ----- pause, resume, cancel -----

  function StatusRefusal(s: State, target: WorkflowStatus, expected: Option<int>): Option<Error> {
    if !WorkflowMay(s.status, target) then Some(InvalidTransition)
    else if Conflicts(s, expected) then Some(VersionConflict)
    else None
  }

  ghost function ChangeStatus(s: State, target: WorkflowStatus, e: Event, expected: Option<int>): Result<State, Error> {
    var refusal := StatusRefusal(s, target, expected);
    if refusal.Some? then Err(refusal.value) else Ok(Append(s.(status := target, revision := s.revision + 1), e))
  }

  ghost function ResumeStep(g: Graph, s: State, expected: Option<int>): Result<State, Error>
    requires RowsAreTasks(g, s)
  {
    var changed := ChangeStatus(s, WfRunning, WorkflowResumed, expected);
    if changed.Err? then changed else Ok(Advance(g, changed.value))
  }

  ghost function CancelStep(s: State, expected: Option<int>, reason: string): Result<State, Error> {
    var changed := ChangeStatus(s, WfCancelled, WorkflowCancelledEvent, expected);
    if changed.Err? || reason == "" then changed
    else Ok(changed.value.(metadata := changed.value.metadata[TERMINATION_REASON := Text(reason)]))
  }

  // ----- reopening -----

  predicate Invalidatable(row: Row) {
    row.status == Pending || row.status == Running || row.status == Completed
  }

  ghost function InvalidateAll(s: State, tasks: seq<Id>, reason: string): State
    ensures InvalidateAll(s, tasks, reason).rows.Keys == s.rows.Keys
  {
    if tasks == [] then s
    else
      var before := InvalidateAll(s, tasks[..|tasks| - 1], reason);
      var t := tasks[|tasks| - 1];
      if t in before.rows && Invalidatable(before.rows[t]) then
        Touch(before, t, before.rows[t].(status := Invalidated), NodeInvalidated(t, reason))
      else before
  }

  /** The target's own part: a completed target goes back to pending. */
  ghost function ReopenTarget(s: State, t: Id, reason: string): State
    requires t in s.rows
  {
    if s.rows[t].status == Completed then
      Touch(s, t, s.rows[t].(status := Pending), NodeInvalidated(t, reason))
    else s
  }

  /** Rows before the scheduler runs again; a longer log means that some row was affected. */
  ghost function Unwound(g: Graph, s: State, t: Id, reason: string, reopenTarget: bool): State
    requires reopenTarget ==> t in s.rows
  {
    InvalidateAll(if reopenTarget then ReopenTarget(s, t, reason) else s, DownstreamTasks(g, t), reason)
  }

  /** The state handed to the scheduler when some row was affected. */
  ghost function Reworked(g: Graph, s: State, t: Id, reason: string, reopenTarget: bool): State
    requires t in s.rows
    ensures Reworked(g, s, t, reason, reopenTarget).rows.Keys == s.rows.Keys
  {
    var unwound := Unwound(g, s, t, reason, reopenTarget);
    SyncTotal(unwound.(status := WfRunning, revision := unwound.revision + 1))
  }

  /** The checks that a reopen call makes before it changes anything. */
  function ReopenRefusal(g: Graph, s: State, t: Id, expected: Option<int>, reopenTarget: bool): Option<Error> {
    if s.status != WfRunning && s.status != WfCompleted then Some(InvalidTransition)
    else if Conflicts(s, expected) then Some(VersionConflict)
    else if FindNode(g.nodes, t).None? then Some(UnknownNode)
    else if !IsTask(g, t) then Some(NodeExecution)
    else if t !in s.rows then Some(UnknownNode)
    else if
      reopenTarget && s.rows[t].status != Completed && s.rows[t].status != Pending && s.rows[t].status != Invalidated
    then Some(InvalidTransition)
    else None
  }

  ghost function ReopenStep(g: Graph, s: State, t: Id, expected: Option<int>, reason: string, reopenTarget: bool)
    : Result<State, Error>
    requires RowsAreTasks(g, s)
  {
    var refusal := ReopenRefusal(g, s, t, expected, reopenTarget);
    if refusal.Some? then Err(refusal.value)
    else if |Unwound(g, s, t, reason, reopenTarget).log| > |s.log| then
      Ok(Advance(g, Reworked(g, s, t, reason, reopenTarget)))
    else if s.status == WfCompleted then Ok(s.(status := WfRunning, revision := s.revision + 1))
    else Ok(s)
  }

  // ----- calls -----

  /** Why a call is rejected, if it is. */
  ghost function Refusal(g: Graph, s: State, call: Call): Option<Error> {
    match call
    case Submit(t, outputs, expected) => SubmitRefusal(g, s, t, outputs, expected)
    case Pause(expected) => StatusRefusal(s, WfPaused, expected)
    case Resume(expected) => StatusRefusal(s, WfRunning, expected)
    case Cancel(expected, _) => StatusRefusal(s, WfCancelled, expected)
    case Reopen(t, expected, _, reopenTarget) => ReopenRefusal(g, s, t, expected, reopenTarget)
  }

  ghost function Step(g: Graph, s: State, call: Call): Result<State, Error>
    requires RowsAreTasks(g, s)
  {
    match call
    case Submit(t, outputs, expected) => SubmitStep(g, s, t, outputs, expected)
    case Pause(expected) => ChangeStatus(s, WfPaused, WorkflowPausedEvent, expected)
    case Resume(expected) => ResumeStep(g, s, expected)
    case Cancel(expected, reason) => CancelStep(s, expected, reason)
    case Reopen(t, expected, reason, reopenTarget) => ReopenStep(g, s, t, expected, reason, reopenTarget)
  }

  /** A failed call is rolled back and changes nothing. */
  ghost function Apply(g: Graph, s: State, call: Call): State
    requires RowsAreTasks(g, s)
  {
    match Step(g, s, call)
    case Ok(next) => next
    case Err(_) => s
  }
}
