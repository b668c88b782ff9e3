/** The inductive invariant of a workflow instance, kept by every service call. */
module Invariants {
  import opened Values
  import opened Graphs
  import opened GraphSearch
  import opened States
  import opened Executors
  import opened ReadModels
  import opened Engine
  import opened Coherence

  // ----- what publishing a definition guarantees -----

  /** Every upstream binding names a task on some path before the bound one. */
  ghost predicate Wired(g: Graph) {
    forall t :: IsTask(g, t) ==>
      forall i :: 0 <= i < |InputsOf(g, t)| && InputsOf(g, t)[i].source.Upstream? ==>
        IsTask(g, InputsOf(g, t)[i].source.node) && Reaches(g.edges, InputsOf(g, t)[i].source.node, t)
  }

  ghost predicate Valid(g: Graph) {
    WellFormed(g) && Acyclic(g.edges) && Wired(g)
  }

  // ----- the invariant -----

  /** Between calls no row is running or failed. */
  ghost predicate Settled(rows: map<Id, Row>) {
    forall t :: t in rows ==> rows[t].status != Running && rows[t].status != Failed
  }

  predicate Reached(row: Row) {
    row.status == Pending || row.status == Completed
  }

  ghost predicate ReachedAreReady(g: Graph, rows: map<Id, Row>) {
    forall t :: t in rows && Reached(rows[t]) ==> DirectReady(g, rows, t)
  }

  /** A task is pending or completed exactly when all its direct task predecessors are completed. */
  ghost predicate AtFrontier(g: Graph, rows: map<Id, Row>) {
    forall t {:trigger DirectReady(g, rows, t)} :: t in rows ==> (Reached(rows[t]) <==> DirectReady(g, rows, t))
  }

  /** No later binding overwrites this one. */
  ghost predicate IsLastFor(inputs: seq<Binding>, i: nat) {
    i < |inputs| && forall j :: i < j < |inputs| ==> inputs[j].inputKey != inputs[i].inputKey
  }

  /** The recorded input under binding `i` is what its source currently holds. */
  ghost predicate BindingFresh(rows: map<Id, Row>, work: Execution, b: Binding) {
    b.source.Upstream? ==>
      && b.source.node in rows
      && rows[b.source.node].status == Completed
      && rows[b.source.node].executions != []
      && b.source.outputKey in Latest(rows[b.source.node]).outputs
      && b.inputKey in work.inputs
      && work.inputs[b.inputKey] == Latest(rows[b.source.node]).outputs[b.source.outputKey]
  }

  ghost predicate HasFreshWork(g: Graph, rows: map<Id, Row>, t: Id)
    requires t in rows
  {
    && IsTask(g, t)
    && rows[t].executions != []
    && forall i :: 0 <= i < |InputsOf(g, t)| && IsLastFor(InputsOf(g, t), i) ==>
         BindingFresh(rows, Latest(rows[t]), InputsOf(g, t)[i])
  }

  /** No completed work rests on stale upstream values. */
  ghost predicate Fresh(g: Graph, rows: map<Id, Row>) {
    forall t {:trigger HasFreshWork(g, rows, t)} ::
      t in rows && rows[t].status == Completed ==> HasFreshWork(g, rows, t)
  }

  /** The execution is the result of an accepted executor run on its recorded inputs. */
  ghost predicate IsGenuine(g: Graph, seeds: map<Id, Record>, t: Id, e: Execution)
    requires IsTask(g, t)
  {
    exists submitted :: Outcome(DefinitionOf(g, t), ContextOf(g, seeds, t, e.inputs), submitted) == Some(e.outputs)
  }

  ghost predicate RowGenuine(g: Graph, seeds: map<Id, Record>, t: Id, row: Row) {
    IsTask(g, t) && forall i :: 0 <= i < |row.executions| ==> IsGenuine(g, seeds, t, row.executions[i])
  }

  ghost predicate AllGenuine(g: Graph, seeds: map<Id, Record>, rows: map<Id, Row>) {
    forall t {:trigger RowGenuine(g, seeds, t, rows[t])} :: t in rows ==> RowGenuine(g, seeds, t, rows[t])
  }

  /** The metadata mirror of the projected total. */
  ghost predicate Mirrored(s: State) {
    && s.models.workflow.Some?
    && CURRENT_TOTAL in s.metadata
    && var total := s.models.workflow.value.total;
    s.metadata[CURRENT_TOTAL] == if total.Some? then Num(total.value) else Null
  }

  /** The projection may lag behind in one way only: a reopened instance still shows as completed. */
  ghost predicate StatusShown(s: State) {
    && s.models.workflow.Some?
    && var shown := s.models.workflow.value.status;
    shown == s.status || (shown == WfCompleted && s.status == WfRunning)
  }

  ghost predicate RowsInv(g: Graph, s: State) {
    Settled(s.rows) && Fresh(g, s.rows) && AllGenuine(g, s.seeds, s.rows)
  }

  ghost predicate Inv(g: Graph, s: State) {
    && Coherent(g, s)
    && RowsInv(g, s)
    && AtFrontier(g, s.rows)
    && Mirrored(s)
    && StatusShown(s)
    && s.status != WfPending
    && (s.status == WfCompleted ==> AllDone(g, s.rows))
  }

  // ----- preservation of freshness -----

  /** Losing completed tasks is harmless as long as whatever rests on a lost one is lost too. */
  lemma FreshShrinks(g: Graph, rows: map<Id, Row>, next: map<Id, Row>)
    requires Fresh(g, rows) && next.Keys == rows.Keys
    requires forall t :: t in next && next[t].status == Completed ==> next[t] == rows[t]
    requires forall t, i :: t in next && next[t].status == Completed && IsTask(g, t) && 0 <= i < |InputsOf(g, t)|
                            && InputsOf(g, t)[i].source.Upstream? && InputsOf(g, t)[i].source.node in rows
                            && rows[InputsOf(g, t)[i].source.node].status == Completed
                            ==> next[InputsOf(g, t)[i].source.node].status == Completed
    ensures Fresh(g, next)
  {
    forall t | t in next && next[t].status == Completed
      ensures HasFreshWork(g, next, t)
    {
      assert HasFreshWork(g, rows, t);
      forall i | 0 <= i < |InputsOf(g, t)| && IsLastFor(InputsOf(g, t), i)
        ensures BindingFresh(next, Latest(next[t]), InputsOf(g, t)[i])
      {
        assert BindingFresh(rows, Latest(rows[t]), InputsOf(g, t)[i]);
      }
    }
  }

  // ----- the scheduler -----

  ghost function Promoted(g: Graph, rows: map<Id, Row>, t: Id): Row
    requires t in rows
  {
    if Ready(g, rows, t) then rows[t].(status := Pending) else rows[t]
  }

  /** What one pass over a running instance does. */
  ghost predicate AdvancesTo(g: Graph, s: State, next: State) {
    && next.rows.Keys == s.rows.Keys
    && (forall t :: t in s.rows ==> next.rows[t] == Promoted(g, s.rows, t))
    && next.seeds == s.seeds && next.metadata == s.metadata
    && next.status == (if AllDone(g, s.rows) then WfCompleted else WfRunning)
    && next.revision == s.revision + (if AllDone(g, s.rows) then 1 else 0)
    && next.models.workflow.Some? && s.models.workflow.Some?
    && next.models.workflow.value.total == s.models.workflow.value.total
    && next.models.workflow.value.status ==
       (if AllDone(g, s.rows) then WfCompleted else s.models.workflow.value.status)
  }

  lemma ReadyAmongNoRepeats(g: Graph, rows: map<Id, Row>, tasks: seq<Id>)
    requires NoRepeats(tasks)
    ensures NoRepeats(ReadyAmong(g, rows, tasks))
  {
  }

  lemma PromotionKeepsDone(g: Graph, rows: map<Id, Row>, next: map<Id, Row>)
    requires next.Keys == rows.Keys && forall t :: t in rows ==> next[t] == Promoted(g, rows, t)
    ensures AllDone(g, next) <==> AllDone(g, rows)
  {
  }

  /** The first half of a pass: every ready row is promoted, and nothing else changes. */
  lemma PassPromotes(g: Graph, s: State)
    requires DistinctIds(g) && Coherent(g, s)
    ensures var next := PromoteAll(s, ReadyAmong(g, s.rows, TaskIds(g.nodes)));
            && Coherent(g, next) && next.rows.Keys == s.rows.Keys
            && (forall t :: t in s.rows ==> next.rows[t] == Promoted(g, s.rows, t))
            && next == s.(rows := next.rows, log := next.log, models := next.models)
            && next.models.workflow.value.total == s.models.workflow.value.total
            && next.models.workflow.value.status == s.models.workflow.value.status
  {
    TasksAgree(g);
    var ready := ReadyAmong(g, s.rows, TaskIds(g.nodes));
    ReadyAmongNoRepeats(g, s.rows, TaskIds(g.nodes));
    PromoteAllExact(s, ready);
    PromoteAllCoherent(g, s, ready);
  }

  lemma AdvanceExact(g: Graph, s: State)
    requires DistinctIds(g) && Coherent(g, s) && s.status == WfRunning
    ensures Coherent(g, Advance(g, s)) && AdvancesTo(g, s, Advance(g, s))
  {
    PassPromotes(g, s);
    var promoted := PromoteAll(s, ReadyAmong(g, s.rows, TaskIds(g.nodes)));
    PromotionKeepsDone(g, s.rows, promoted.rows);
    if AllDone(g, promoted.rows) {
      var closed := promoted.(status := WfCompleted, revision := promoted.revision + 1);
      WorkflowEventCoherent(g, closed, WorkflowCompletedEvent);
      AppendNumbered(closed, WorkflowCompletedEvent);
    }
  }

  lemma PromotionReachesFrontier(g: Graph, rows: map<Id, Row>, next: map<Id, Row>)
    requires next.Keys == rows.Keys && forall t :: t in rows ==> next[t] == Promoted(g, rows, t)
    requires Settled(rows) && ReachedAreReady(g, rows)
    ensures AtFrontier(g, next) && Settled(next)
  {
    forall t | t in next
      ensures Reached(next[t]) <==> DirectReady(g, next, t)
    {
      SameCompletedSameReady(g, rows, next, t);
      assert next[t] == Promoted(g, rows, t);
    }
  }

  /** From any settled state whose pending and completed tasks are ready, one pass reaches the frontier. */
  lemma AdvanceReachesFrontier(g: Graph, s: State)
    requires DistinctIds(g) && Coherent(g, s) && s.status == WfRunning
    requires Settled(s.rows) && ReachedAreReady(g, s.rows)
    ensures var next := Advance(g, s); AtFrontier(g, next.rows) && Settled(next.rows)
  {
    AdvanceExact(g, s);
    PromotionReachesFrontier(g, s.rows, Advance(g, s).rows);
  }

  lemma SameCompletedSameReady(g: Graph, rows: map<Id, Row>, next: map<Id, Row>, t: Id)
    requires next.Keys == rows.Keys
    requires forall p :: p in rows ==> (rows[p].status == Completed <==> next[p].status == Completed)
    ensures DirectReady(g, rows, t) <==> DirectReady(g, next, t)
  {
  }

  lemma PromotionKeepsWork(g: Graph, seeds: map<Id, Record>, rows: map<Id, Row>, next: map<Id, Row>)
    requires next.Keys == rows.Keys && forall t :: t in rows ==> next[t] == Promoted(g, rows, t)
    requires Settled(rows) && Fresh(g, rows) && AllGenuine(g, seeds, rows)
    ensures Settled(next) && Fresh(g, next) && AllGenuine(g, seeds, next)
  {
    FreshShrinks(g, rows, next);
    forall t | t in next
      ensures RowGenuine(g, seeds, t, next[t])
    {
      assert RowGenuine(g, seeds, t, rows[t]);
    }
  }

  /** Everything the scheduler needs from a state in order to restore the full invariant. */
  ghost predicate Advanceable(g: Graph, s: State) {
    && Coherent(g, s) && s.status == WfRunning
    && RowsInv(g, s) && ReachedAreReady(g, s.rows) && Mirrored(s)
    && (s.models.workflow.value.status == WfRunning || s.models.workflow.value.status == WfCompleted)
  }

  lemma AdvanceInv(g: Graph, s: State)
    requires DistinctIds(g) && Advanceable(g, s)
    ensures Inv(g, Advance(g, s))
  {
    AdvanceExact(g, s);
    PromotionReachesFrontier(g, s.rows, Advance(g, s).rows);
    PromotionKeepsWork(g, s.seeds, s.rows, Advance(g, s).rows);
  }

  /** A synchronised mirror depends on the projection alone. */
  lemma SyncMirrors(g: Graph, s: State)
    requires Coherent(g, s)
    ensures Coherent(g, SyncTotal(s)) && Mirrored(SyncTotal(s))
  {
    var total := s.models.workflow.value.total;
    if total.Some? {
      Round2Idempotent(Sum(Contributions(s.models.workflow.value.nodes)));
    }
  }

  // ----- starting -----

  lemma LaunchedExact(g: Graph, metadata: Record, seeds: map<Id, Record>)
    ensures var s := Launched(g, metadata, seeds);
            && s.log == [StoredEvent(1, WorkflowStarted)]
            && s.models == Reads(Some(WorkflowState(WfRunning, 1, map[], None)), map[])
            && s.models == Replay(s.log)
  {
    AppendNumbered(Built(g, metadata, seeds), WorkflowStarted);
    assert [] + [StoredEvent(1, WorkflowStarted)] == [StoredEvent(1, WorkflowStarted)];
  }

  /** Where nothing has happened, every task agrees with its waiting row. */
  lemma FreshRowAgrees(g: Graph, rows: map<Id, Row>, log: seq<StoredEvent>, models: Reads, t: Id)
    requires t in rows && IsTask(g, t) && rows[t] == Row(Waiting, 0, [])
    requires log == [StoredEvent(1, WorkflowStarted)]
    requires models.workflow.Some? && models.workflow.value.nodes == map[] && models.values == map[]
    ensures RowAgrees(g, rows, log, models, t)
  {
    CompletionsAppend([], log[0], t);
    assert [] + [log[0]] == log;
  }

  lemma LaunchedCoherent(g: Graph, metadata: Record, seeds: map<Id, Record>)
    requires DistinctIds(g)
    ensures var s := Launched(g, metadata, seeds);
            && Coherent(g, s) && s.seeds == seeds
            && s.models.workflow.value.status == WfRunning
            && forall t :: t in s.rows ==> s.rows[t] == Row(Waiting, 0, [])
  {
    TasksAgree(g);
    LaunchedExact(g, metadata, seeds);
    var s := Launched(g, metadata, seeds);
    assert Contributions(map[]) == map[];
    forall t | t in s.rows
      ensures RowAgrees(g, s.rows, s.log, s.models, t)
    {
      FreshRowAgrees(g, s.rows, s.log, s.models, t);
    }
  }

  lemma StartInv(g: Graph, metadata: Record, seeds: map<Id, Record>)
    requires DistinctIds(g)
    ensures Inv(g, StartWorkflow(g, metadata, seeds))
  {
    TasksAgree(g);
    LaunchedCoherent(g, metadata, seeds);
    var s := Launched(g, metadata, seeds);
    assert RowsInv(g, s);
    AdvanceExact(g, s);
    PromotionReachesFrontier(g, s.rows, Advance(g, s).rows);
    PromotionKeepsWork(g, s.seeds, s.rows, Advance(g, s).rows);
    SyncMirrors(g, Advance(g, s));
  }

  // ----- submitting -----

  /** An accepted binding reads the source's latest outputs. */
  lemma BindingReadsLatest(g: Graph, s: State, b: Binding)
    requires Coherent(g, s) && b.source.Upstream? && BindingValue(s, b).Some?
    ensures var source := b.source.node;
            && source in s.rows && s.rows[source].status == Completed && s.rows[source].executions != []
            && b.source.outputKey in Latest(s.rows[source]).outputs
            && BindingValue(s, b).value == Latest(s.rows[source]).outputs[b.source.outputKey]
  {
    assert RowAgrees(g, s.rows, s.log, s.models, b.source.node);
  }

  lemma {:induction false} BindExact(s: State, bindings: seq<Binding>, k: nat, i: nat)
    requires i < k <= |bindings| && BindUpTo(s, bindings, k).Some?
    requires forall j :: i < j < k ==> bindings[j].inputKey != bindings[i].inputKey
    ensures BindingValue(s, bindings[i]).Some?
    ensures var values := BindUpTo(s, bindings, k).value;
            bindings[i].inputKey in values && values[bindings[i].inputKey] == BindingValue(s, bindings[i]).value
  {
    if i < k - 1 {
      BindExact(s, bindings, k - 1, i);
    }
  }

  /** What a completion does to the rows. */
  lemma CompleteRows(g: Graph, s: State, t: Id, inputs: Record, final: Record)
    requires t in s.rows && IsTask(g, t)
    ensures var next, row := Complete(g, s, t, inputs, final), s.rows[t];
            var number := row.currentExecution + 1;
            && next.rows == s.rows[t := Row(Completed, number, row.executions + [Execution(number, inputs, final)])]
            && next == s.(rows := next.rows, log := next.log, models := next.models)
  {
    var begun := Begin(s, t);
    var next := Complete(g, s, t, inputs, final);
    assert begun.rows[t := next.rows[t]] == s.rows[t := next.rows[t]];
  }

  lemma CompleteFresh(g: Graph, s: State, t: Id, inputs: Record, final: Record)
    requires Coherent(g, s) && Fresh(g, s.rows) && IsTask(g, t) && t in s.rows && s.rows[t].status == Pending
    requires Bind(s, InputsOf(g, t)) == Some(inputs)
    ensures Fresh(g, Complete(g, s, t, inputs, final).rows)
  {
    CompleteRows(g, s, t, inputs, final);
    var rows := Complete(g, s, t, inputs, final).rows;
    forall u | u in rows && rows[u].status == Completed
      ensures HasFreshWork(g, rows, u)
    {
      if u != t {
        assert HasFreshWork(g, s.rows, u);
      }
      forall i | 0 <= i < |InputsOf(g, u)| && IsLastFor(InputsOf(g, u), i)
        ensures BindingFresh(rows, Latest(rows[u]), InputsOf(g, u)[i])
      {
        var b := InputsOf(g, u)[i];
        if u == t {
          BindExact(s, InputsOf(g, t), |InputsOf(g, t)|, i);
          if b.source.Upstream? {
            BindingReadsLatest(g, s, b);
          }
        } else {
          assert BindingFresh(s.rows, Latest(s.rows[u]), b);
        }
      }
    }
  }

  lemma CompletionKeepsReady(g: Graph, rows: map<Id, Row>, t: Id, done: Row)
    requires AtFrontier(g, rows) && t in rows && rows[t].status == Pending && done.status == Completed
    ensures ReachedAreReady(g, rows[t := done])
  {
    var next := rows[t := done];
    forall u | u in next && Reached(next[u])
      ensures DirectReady(g, next, u)
    {
      assert Reached(rows[u]);
      assert DirectReady(g, rows, u);
    }
  }

  lemma CompletionGenuine(g: Graph, seeds: map<Id, Record>, rows: map<Id, Row>, t: Id, done: Row)
    requires AllGenuine(g, seeds, rows) && t in rows && IsTask(g, t)
    requires done.executions != [] && done.executions[..|done.executions| - 1] == rows[t].executions
    requires IsGenuine(g, seeds, t, Latest(done))
    ensures AllGenuine(g, seeds, rows[t := done])
  {
    var next := rows[t := done];
    forall u | u in next
      ensures RowGenuine(g, seeds, u, next[u])
    {
      assert RowGenuine(g, seeds, u, rows[u]);
      if u == t {
        forall i | 0 <= i < |done.executions|
          ensures IsGenuine(g, seeds, t, done.executions[i])
        {
          if i < |done.executions| - 1 {
            assert done.executions[i] == rows[t].executions[i];
          }
        }
      }
    }
  }

  /** The new row of an accepted submit: one more execution, the genuine result of running on the bound inputs. */
  lemma WorkedRows(g: Graph, s: State, t: Id, outputs: Record)
    requires t in s.rows && IsTask(g, t) && Executable(g, s, t, outputs)
    ensures var w := Worked(g, s, t, outputs);
            && w.status == s.status && w.revision == s.revision && w.seeds == s.seeds
            && w.rows == s.rows[t := w.rows[t]]
            && w.rows[t].status == Completed
            && w.rows[t].currentExecution == s.rows[t].currentExecution + 1
            && w.rows[t].executions == s.rows[t].executions + [Latest(w.rows[t])]
            && Bind(s, InputsOf(g, t)) == Some(Latest(w.rows[t]).inputs)
            && Outcome(DefinitionOf(g, t), ContextOf(g, s.seeds, t, Latest(w.rows[t]).inputs), outputs)
               == Some(Latest(w.rows[t]).outputs)
  {
    var inputs := Bind(s, InputsOf(g, t)).value;
    CompleteRows(g, s, t, inputs, Outcome(DefinitionOf(g, t), ContextOf(g, s.seeds, t, inputs), outputs).value);
  }

  lemma WorkedCoherent(g: Graph, s: State, t: Id, outputs: Record)
    requires Inv(g, s) && t in s.rows && s.rows[t].status == Pending && IsTask(g, t) && Executable(g, s, t, outputs)
    ensures var w := Worked(g, s, t, outputs);
            && Coherent(g, w) && Mirrored(w) && Fresh(g, w.rows)
            && w.models.workflow.value.status == s.models.workflow.value.status
  {
    var inputs := Bind(s, InputsOf(g, t)).value;
    var final := Outcome(DefinitionOf(g, t), ContextOf(g, s.seeds, t, inputs), outputs).value;
    CompleteCoherent(g, s, t, inputs, final);
    CompleteFresh(g, s, t, inputs, final);
    SyncMirrors(g, Complete(g, s, t, inputs, final));
  }

  lemma WorkedAdvanceable(g: Graph, s: State, t: Id, outputs: Record)
    requires Inv(g, s) && s.status == WfRunning
    requires t in s.rows && s.rows[t].status == Pending && IsTask(g, t) && Executable(g, s, t, outputs)
    ensures Advanceable(g, Worked(g, s, t, outputs))
  {
    WorkedRows(g, s, t, outputs);
    WorkedCoherent(g, s, t, outputs);
    var done := Worked(g, s, t, outputs).rows[t];
    CompletionKeepsReady(g, s.rows, t, done);
    assert IsGenuine(g, s.seeds, t, Latest(done));
    CompletionGenuine(g, s.seeds, s.rows, t, done);
  }

  lemma SubmitInv(g: Graph, s: State, t: Id, outputs: Record, expected: Option<int>)
    requires DistinctIds(g) && Inv(g, s) && SubmitRefusal(g, s, t, outputs, expected).None?
    ensures Inv(g, SubmitStep(g, s, t, outputs, expected).value)
  {
    WorkedAdvanceable(g, s, t, outputs);
    AdvanceInv(g, Worked(g, s, t, outputs));
  }

  // ----- pause, resume, cancel -----

  lemma ChangeStatusInv(g: Graph, s: State, target: WorkflowStatus, e: Event, expected: Option<int>)
    requires Inv(g, s) && StatusRefusal(s, target, expected).None?
    requires || (target, e) == (WfPaused, WorkflowPausedEvent)
             || (target, e) == (WfRunning, WorkflowResumed)
             || (target, e) == (WfCancelled, WorkflowCancelledEvent)
    ensures Inv(g, ChangeStatus(s, target, e, expected).value)
    ensures ChangeStatus(s, target, e, expected).value.models.workflow.value.status == target
  {
    var changed := s.(status := target, revision := s.revision + 1);
    WorkflowEventCoherent(g, changed, e);
    AppendNumbered(changed, e);
  }

  lemma ResumeInv(g: Graph, s: State, expected: Option<int>)
    requires DistinctIds(g) && Inv(g, s) && StatusRefusal(s, WfRunning, expected).None?
    ensures Inv(g, ResumeStep(g, s, expected).value)
  {
    ChangeStatusInv(g, s, WfRunning, WorkflowResumed, expected);
    AdvanceInv(g, ChangeStatus(s, WfRunning, WorkflowResumed, expected).value);
  }

  // ----- reopening -----

  /** The rows after the target and its downstream tasks have been taken back. */
  ghost function UnwoundRow(g: Graph, rows: map<Id, Row>, t: Id, reopenTarget: bool, u: Id): Row
    requires u in rows
  {
    if Reaches(g.edges, t, u) && Invalidatable(rows[u]) then rows[u].(status := Invalidated)
    else if u == t && reopenTarget && rows[u].status == Completed then rows[u].(status := Pending)
    else rows[u]
  }

  ghost predicate AffectsSome(g: Graph, rows: map<Id, Row>, t: Id, reopenTarget: bool) {
    || (reopenTarget && t in rows && rows[t].status == Completed)
    || exists u :: u in rows && Reaches(g.edges, t, u) && Invalidatable(rows[u])
  }

  lemma ReopenTargetExact(s: State, t: Id, reason: string)
    requires t in s.rows
    ensures var next := ReopenTarget(s, t, reason);
            && next.rows ==
               (if s.rows[t].status == Completed then s.rows[t := s.rows[t].(status := Pending)] else s.rows)
            && next == s.(rows := next.rows, log := next.log, models := next.models)
            && |next.log| == |s.log| + (if s.rows[t].status == Completed then 1 else 0)
            && (s.rows[t].status != Completed ==> next == s)
  {
  }

  /** Taking back the target and everything after it, row by row; the log grows exactly when a row changes. */
  lemma UnwoundExact(g: Graph, s: State, t: Id, reason: string, reopenTarget: bool)
    requires Acyclic(g.edges) && (forall u :: u in s.rows ==> IsTask(g, u)) && t in s.rows
    ensures var next := Unwound(g, s, t, reason, reopenTarget);
            && next.rows.Keys == s.rows.Keys
            && (forall u :: u in s.rows ==> next.rows[u] == UnwoundRow(g, s.rows, t, reopenTarget, u))
            && next == s.(rows := next.rows, log := next.log, models := next.models)
            && |next.log| >= |s.log|
            && (|next.log| > |s.log| <==> AffectsSome(g, s.rows, t, reopenTarget))
            && (|next.log| == |s.log| ==> next == s)
  {
    if reopenTarget {
      ReopenTargetExact(s, t, reason);
    }
    var first := if reopenTarget then ReopenTarget(s, t, reason) else s;
    var tasks := DownstreamTasks(g, t);
    DownstreamTasksExact(g, t);
    InvalidateAllExact(first, tasks, reason);
    assert forall u :: u in s.rows ==> (u in tasks <==> Reaches(g.edges, t, u));
    assert !Reaches(g.edges, t, t);
  }

  lemma UnwoundCoherent(g: Graph, s: State, t: Id, reason: string, reopenTarget: bool)
    requires Coherent(g, s) && t in s.rows
    ensures var next := Unwound(g, s, t, reason, reopenTarget);
            Coherent(g, next) && next.models.workflow.value.status == s.models.workflow.value.status
  {
    if reopenTarget {
      ReopenTargetCoherent(g, s, t, reason);
    }
    InvalidateAllCoherent(g, if reopenTarget then ReopenTarget(s, t, reason) else s, DownstreamTasks(g, t), reason);
  }

  /** Whatever rests on a task that is no longer completed has been taken back as well. */
  lemma UnwoundFresh(g: Graph, rows: map<Id, Row>, next: map<Id, Row>, t: Id, reopenTarget: bool)
    requires Acyclic(g.edges) && Wired(g) && Fresh(g, rows) && next.Keys == rows.Keys
    requires forall u :: u in rows ==> next[u] == UnwoundRow(g, rows, t, reopenTarget, u)
    ensures Fresh(g, next)
  {
    forall u, i | u in next && next[u].status == Completed && IsTask(g, u) && 0 <= i < |InputsOf(g, u)|
                  && InputsOf(g, u)[i].source.Upstream? && InputsOf(g, u)[i].source.node in rows
                  && rows[InputsOf(g, u)[i].source.node].status == Completed
      ensures next[InputsOf(g, u)[i].source.node].status == Completed
    {
      var source := InputsOf(g, u)[i].source.node;
      assert Reaches(g.edges, source, u);
      if Reaches(g.edges, t, source) {
        ReachesTransitive(g.edges, t, source, u);
      }
    }
    FreshShrinks(g, rows, next);
  }

  lemma UnwoundKeepsReady(g: Graph, rows: map<Id, Row>, next: map<Id, Row>, t: Id, reopenTarget: bool)
    requires Acyclic(g.edges) && AtFrontier(g, rows) && next.Keys == rows.Keys
    requires forall u :: u in rows ==> next[u] == UnwoundRow(g, rows, t, reopenTarget, u)
    ensures ReachedAreReady(g, next)
  {
    forall u | u in next && Reached(next[u])
      ensures DirectReady(g, next, u)
    {
      assert DirectReady(g, rows, u);
      forall p | Edge(p, u) in g.edges && IsTask(g, p)
        ensures p in next && next[p].status == Completed
      {
        EdgeReaches(g.edges, p, u);
        if Reaches(g.edges, t, p) {
          ReachesTransitive(g.edges, t, p, u);
        }
      }
    }
  }

  lemma UnwoundKeepsWork(
    g: Graph, seeds: map<Id, Record>, rows: map<Id, Row>, next: map<Id, Row>, t: Id, reopenTarget: bool)
    requires Settled(rows) && AllGenuine(g, seeds, rows) && next.Keys == rows.Keys
    requires forall u :: u in rows ==> next[u] == UnwoundRow(g, rows, t, reopenTarget, u)
    ensures Settled(next) && AllGenuine(g, seeds, next)
  {
    forall u | u in next
      ensures RowGenuine(g, seeds, u, next[u])
    {
      assert RowGenuine(g, seeds, u, rows[u]);
    }
  }

  lemma ReworkedExact(g: Graph, s: State, t: Id, reason: string, reopenTarget: bool)
    requires Valid(g) && Inv(g, s) && t in s.rows
    ensures var w := Reworked(g, s, t, reason, reopenTarget);
            && w.rows.Keys == s.rows.Keys && w.status == WfRunning && w.revision == s.revision + 1 && w.seeds == s.seeds
            && (forall u :: u in s.rows ==> w.rows[u] == UnwoundRow(g, s.rows, t, reopenTarget, u))
            && Coherent(g, w) && Mirrored(w)
            && w.models.workflow.value.status == s.models.workflow.value.status
  {
    TasksAgree(g);
    UnwoundExact(g, s, t, reason, reopenTarget);
    UnwoundCoherent(g, s, t, reason, reopenTarget);
    var unwound := Unwound(g, s, t, reason, reopenTarget);
    SyncMirrors(g, unwound.(status := WfRunning, revision := unwound.revision + 1));
  }

  lemma ReworkedAdvanceable(g: Graph, s: State, t: Id, reason: string, reopenTarget: bool)
    requires Valid(g) && Inv(g, s) && t in s.rows && (s.status == WfRunning || s.status == WfCompleted)
    ensures Advanceable(g, Reworked(g, s, t, reason, reopenTarget))
  {
    ReworkedExact(g, s, t, reason, reopenTarget);
    var next := Reworked(g, s, t, reason, reopenTarget).rows;
    UnwoundFresh(g, s.rows, next, t, reopenTarget);
    UnwoundKeepsReady(g, s.rows, next, t, reopenTarget);
    UnwoundKeepsWork(g, s.seeds, s.rows, next, t, reopenTarget);
  }

  /** The log grows exactly when some row is affected. */
  lemma AffectedByLog(g: Graph, s: State, t: Id, reason: string, reopenTarget: bool)
    requires Valid(g) && Inv(g, s) && t in s.rows
    ensures |Unwound(g, s, t, reason, reopenTarget).log| > |s.log| <==> AffectsSome(g, s.rows, t, reopenTarget)
  {
    TasksAgree(g);
    UnwoundExact(g, s, t, reason, reopenTarget);
  }

  lemma ReopenIs(g: Graph, s: State, t: Id, expected: Option<int>, reason: string, reopenTarget: bool)
    requires RowsAreTasks(g, s) && ReopenRefusal(g, s, t, expected, reopenTarget).None?
    requires |Unwound(g, s, t, reason, reopenTarget).log| > |s.log|
    ensures t in s.rows && RowsAreTasks(g, Reworked(g, s, t, reason, reopenTarget))
    ensures ReopenStep(g, s, t, expected, reason, reopenTarget).value
         == Advance(g, Reworked(g, s, t, reason, reopenTarget))
  {
  }

  lemma ReopenUnaffected(g: Graph, s: State, t: Id, expected: Option<int>, reason: string, reopenTarget: bool)
    requires Valid(g) && Inv(g, s) && ReopenRefusal(g, s, t, expected, reopenTarget).None? && t in s.rows
    requires !AffectsSome(g, s.rows, t, reopenTarget)
    ensures ReopenStep(g, s, t, expected, reason, reopenTarget).value ==
            if s.status == WfCompleted then s.(status := WfRunning, revision := s.revision + 1) else s
  {
    AffectedByLog(g, s, t, reason, reopenTarget);
  }

  lemma QuietReopenInv(g: Graph, s: State)
    requires Inv(g, s) && s.status == WfCompleted
    ensures Inv(g, s.(status := WfRunning, revision := s.revision + 1))
  {
  }

  lemma ReopenInv(g: Graph, s: State, t: Id, expected: Option<int>, reason: string, reopenTarget: bool)
    requires Valid(g) && Inv(g, s) && ReopenRefusal(g, s, t, expected, reopenTarget).None?
    ensures Inv(g, ReopenStep(g, s, t, expected, reason, reopenTarget).value)
  {
    if AffectsSome(g, s.rows, t, reopenTarget) {
      AffectedByLog(g, s, t, reason, reopenTarget);
      ReopenIs(g, s, t, expected, reason, reopenTarget);
      ReworkedAdvanceable(g, s, t, reason, reopenTarget);
      AdvanceInv(g, Reworked(g, s, t, reason, reopenTarget));
    } else {
      ReopenUnaffected(g, s, t, expected, reason, reopenTarget);
      if s.status == WfCompleted {
        QuietReopenInv(g, s);
      }
    }
  }

  // ----- every call, every run -----

  lemma StepInv(g: Graph, s: State, call: Call)
    requires Valid(g) && Inv(g, s)
    ensures Inv(g, Apply(g, s, call))
  {
    if Refusal(g, s, call).None? {
      match call
      case Submit(t, outputs, expected) => SubmitInv(g, s, t, outputs, expected);
      case Pause(expected) => ChangeStatusInv(g, s, WfPaused, WorkflowPausedEvent, expected);
      case Resume(expected) => ResumeInv(g, s, expected);
      case Cancel(expected, reason) => ChangeStatusInv(g, s, WfCancelled, WorkflowCancelledEvent, expected);
      case Reopen(t, expected, reason, reopenTarget) => ReopenInv(g, s, t, expected, reason, reopenTarget);
    }
  }

  ghost predicate IsStart(g: Graph, s: State) {
    exists metadata, seeds :: s == StartWorkflow(g, metadata, seeds)
  }

  /** State number `i` of a run is a fresh start, or what the call before it made of the state before it. */
  ghost predicate Arises(g: Graph, states: seq<State>, calls: seq<Call>, i: nat)
    requires i < |states| == |calls| + 1
  {
    if i == 0 then IsStart(g, states[0])
    else RowsAreTasks(g, states[i - 1]) && states[i] == Apply(g, states[i - 1], calls[i - 1])
  }

  /** A start and then any calls, one after the other; `states[k]` is the state before call `k`. */
  ghost predicate IsRun(g: Graph, states: seq<State>, calls: seq<Call>) {
    |states| == |calls| + 1 && forall i :: 0 <= i < |states| ==> Arises(g, states, calls, i)
  }

  lemma {:induction false} RunInv(g: Graph, states: seq<State>, calls: seq<Call>, k: nat)
    requires Valid(g) && IsRun(g, states, calls) && k < |states|
    ensures Inv(g, states[k])
  {
    assert Arises(g, states, calls, k);
    if k == 0 {
      var metadata, seeds :| states[0] == StartWorkflow(g, metadata, seeds);
      StartInv(g, metadata, seeds);
    } else {
      RunInv(g, states, calls, k - 1);
      StepInv(g, states[k - 1], calls[k - 1]);
    }
  }

  /** Whatever calls are made after whatever start, there is a run. */
  lemma {:induction false} RunExists(g: Graph, metadata: Record, seeds: map<Id, Record>, calls: seq<Call>)
    returns (states: seq<State>)
    requires Valid(g)
    ensures IsRun(g, states, calls) && states[0] == StartWorkflow(g, metadata, seeds)
  {
    if calls == [] {
      states := [StartWorkflow(g, metadata, seeds)];
    } else {
      var front := calls[..|calls| - 1];
      var before := RunExists(g, metadata, seeds, front);
      RunInv(g, before, front, |front|);
      states := before + [Apply(g, before[|front|], calls[|front|])];
      forall i | 0 <= i < |states|
        ensures Arises(g, states, calls, i)
      {
        assert i < |before| ==> Arises(g, before, front, i);
      }
    }
  }
}
