/** What no call can undo: the log, the execution history and the revision counter. */
module History {
  import opened Values
  import opened Graphs
  import opened GraphSearch
  import opened States
  import opened ReadModels
  import opened Engine
  import opened Coherence
  import opened Invariants
  import opened Theorems
  import opened Reopening

  // ----- the log is append-only -----

  lemma {:induction false} InvalidateAllLog(s: State, tasks: seq<Id>, reason: string)
    ensures s.log <= InvalidateAll(s, tasks, reason).log
  {
    if tasks == [] {
    } else {
      InvalidateAllLog(s, tasks[..|tasks| - 1], reason);
    }
  }

  lemma AdvanceLog(g: Graph, s: State)
    requires RowsAreTasks(g, s)
    ensures s.log <= Advance(g, s).log
  {
    if s.status == WfRunning {
      PromoteAllLog(s, ReadyAmong(g, s.rows, TaskIds(g.nodes)));
    }
  }

  lemma UnwoundLog(g: Graph, s: State, t: Id, reason: string, reopenTarget: bool)
    requires t in s.rows
    ensures s.log <= Unwound(g, s, t, reason, reopenTarget).log
  {
    var first := if reopenTarget then ReopenTarget(s, t, reason) else s;
    assert s.log <= first.log;
    InvalidateAllLog(first, DownstreamTasks(g, t), reason);
  }

  lemma WorkedLog(g: Graph, s: State, t: Id, outputs: Record)
    requires t in s.rows && IsTask(g, t) && Executable(g, s, t, outputs)
    ensures s.log <= Worked(g, s, t, outputs).log
  {
    assert s.log <= Begin(s, t).log;
  }

  lemma SubmitLog(g: Graph, s: State, t: Id, outputs: Record, expected: Option<int>)
    requires RowsAreTasks(g, s) && SubmitRefusal(g, s, t, outputs, expected).None?
    ensures s.log <= SubmitStep(g, s, t, outputs, expected).value.log
  {
    WorkedLog(g, s, t, outputs);
    AdvanceLog(g, Worked(g, s, t, outputs));
  }

  lemma ReopenLog(g: Graph, s: State, t: Id, expected: Option<int>, reason: string, reopenTarget: bool)
    requires RowsAreTasks(g, s) && ReopenRefusal(g, s, t, expected, reopenTarget).None?
    ensures s.log <= ReopenStep(g, s, t, expected, reason, reopenTarget).value.log
  {
    if |Unwound(g, s, t, reason, reopenTarget).log| > |s.log| {
      ReopenIs(g, s, t, expected, reason, reopenTarget);
      UnwoundLog(g, s, t, reason, reopenTarget);
      AdvanceLog(g, Reworked(g, s, t, reason, reopenTarget));
    }
  }

  /** No call, accepted or rejected, ever rewrites an event. */
  lemma LogAppendOnly(g: Graph, s: State, call: Call)
    requires RowsAreTasks(g, s)
    ensures s.log <= Apply(g, s, call).log
  {
    if Refusal(g, s, call).None? {
      match call
      case Submit(t, outputs, expected) => SubmitLog(g, s, t, outputs, expected);
      case Pause(_) =>
      case Resume(expected) =>
        AdvanceLog(g, ChangeStatus(s, WfRunning, WorkflowResumed, expected).value);
      case Cancel(_, _) =>
      case Reopen(t, expected, reason, reopenTarget) =>
        ReopenLog(g, s, t, expected, reason, reopenTarget);
    }
  }

  // ----- executions are only ever added, by submits alone -----

  ghost predicate SameHistory(rows: map<Id, Row>, next: map<Id, Row>) {
    && next.Keys == rows.Keys
    && forall u :: u in rows ==>
         next[u].executions == rows[u].executions && next[u].currentExecution == rows[u].currentExecution
  }

  lemma AdvanceHistory(g: Graph, s: State)
    requires RowsAreTasks(g, s)
    ensures SameHistory(s.rows, Advance(g, s).rows)
  {
    if s.status == WfRunning {
      PromoteAllExact(s, ReadyAmong(g, s.rows, TaskIds(g.nodes)));
    }
  }

  lemma ReworkedHistory(g: Graph, s: State, t: Id, reason: string, reopenTarget: bool)
    requires t in s.rows
    ensures SameHistory(s.rows, Reworked(g, s, t, reason, reopenTarget).rows)
  {
    if reopenTarget {
      ReopenTargetExact(s, t, reason);
    }
    InvalidateAllExact(if reopenTarget then ReopenTarget(s, t, reason) else s, DownstreamTasks(g, t), reason);
  }

  /** One more execution for `t`, after all the earlier ones; every other history stays. */
  ghost predicate OneMoreExecution(rows: map<Id, Row>, next: map<Id, Row>, t: Id) {
    && next.Keys == rows.Keys && t in rows
    && next[t].currentExecution == rows[t].currentExecution + 1
    && |next[t].executions| == |rows[t].executions| + 1
    && rows[t].executions <= next[t].executions
    && forall u :: u in rows && u != t ==> next[u].executions == rows[u].executions
  }

  lemma SubmitHistory(g: Graph, s: State, t: Id, outputs: Record, expected: Option<int>)
    requires RowsAreTasks(g, s) && SubmitRefusal(g, s, t, outputs, expected).None?
    ensures OneMoreExecution(s.rows, SubmitStep(g, s, t, outputs, expected).value.rows, t)
  {
    WorkedRows(g, s, t, outputs);
    AdvanceHistory(g, Worked(g, s, t, outputs));
  }

  lemma ReopenHistory(g: Graph, s: State, t: Id, expected: Option<int>, reason: string, reopenTarget: bool)
    requires RowsAreTasks(g, s) && ReopenRefusal(g, s, t, expected, reopenTarget).None?
    ensures SameHistory(s.rows, ReopenStep(g, s, t, expected, reason, reopenTarget).value.rows)
  {
    ReworkedHistory(g, s, t, reason, reopenTarget);
    AdvanceHistory(g, Reworked(g, s, t, reason, reopenTarget));
  }

  /** The history of every task survives every call; an accepted submit adds one execution to its own task. */
  lemma HistoryConserved(g: Graph, s: State, call: Call)
    requires RowsAreTasks(g, s)
    ensures if call.Submit? && Refusal(g, s, call).None? then
              OneMoreExecution(s.rows, Apply(g, s, call).rows, call.node)
            else SameHistory(s.rows, Apply(g, s, call).rows)
  {
    if Refusal(g, s, call).None? {
      match call
      case Submit(t, outputs, expected) => SubmitHistory(g, s, t, outputs, expected);
      case Pause(_) =>
      case Resume(expected) =>
        AdvanceHistory(g, ChangeStatus(s, WfRunning, WorkflowResumed, expected).value);
      case Cancel(_, _) =>
      case Reopen(t, expected, reason, reopenTarget) => ReopenHistory(g, s, t, expected, reason, reopenTarget);
    }
  }

  // ----- the revision counter -----

  /** How far an accepted call moves the revision. */
  ghost function Bumps(g: Graph, s: State, call: Call): nat {
    match call
    case Submit(t, _, _) => if OthersDone(s.rows, t) then 1 else 0
    case Pause(_) => 1
    case Resume(_) => if AllDone(g, s.rows) then 2 else 1
    case Cancel(_, _) => 1
    case Reopen(t, _, _, reopenTarget) =>
      if s.status == WfCompleted || AffectsSome(g, s.rows, t, reopenTarget) then 1 else 0
  }

  lemma ReopenRevision(g: Graph, s: State, t: Id, expected: Option<int>, reason: string, reopenTarget: bool)
    requires Valid(g) && Inv(g, s) && ReopenRefusal(g, s, t, expected, reopenTarget).None?
    ensures ReopenStep(g, s, t, expected, reason, reopenTarget).value.revision
         == s.revision + (if s.status == WfCompleted || AffectsSome(g, s.rows, t, reopenTarget) then 1 else 0)
  {
    if AffectsSome(g, s.rows, t, reopenTarget) {
      ReopenAdvances(g, s, t, expected, reason, reopenTarget);
    } else {
      ReopenUnaffected(g, s, t, expected, reason, reopenTarget);
    }
  }

  lemma ResumeRevision(g: Graph, s: State, expected: Option<int>)
    requires Valid(g) && Inv(g, s) && StatusRefusal(s, WfRunning, expected).None?
    ensures ResumeStep(g, s, expected).value.revision == s.revision + (if AllDone(g, s.rows) then 2 else 1)
  {
    ChangeStatusInv(g, s, WfRunning, WorkflowResumed, expected);
    AdvanceExact(g, ChangeStatus(s, WfRunning, WorkflowResumed, expected).value);
  }

  /** A stated revision must be current, and the counter moves by exactly the stated amount. */
  lemma RevisionExactly(g: Graph, s: State, call: Call)
    requires Valid(g) && Inv(g, s) && Refusal(g, s, call).None?
    ensures Step(g, s, call).value.revision == s.revision + Bumps(g, s, call)
    ensures call.expected.Some? ==> call.expected.value == s.revision
  {
    match call
    case Submit(t, outputs, expected) => SubmitExact(g, s, t, outputs, expected);
    case Pause(_) =>
    case Resume(expected) => ResumeRevision(g, s, expected);
    case Cancel(_, _) =>
    case Reopen(t, expected, reason, reopenTarget) => ReopenRevision(g, s, t, expected, reason, reopenTarget);
  }
}
