/** The workflow projection against the rows: where it lags behind, and for how long. */
module Projections {
  import opened Values
  import opened Graphs
  import opened GraphSearch
  import opened States
  import opened Executors
  import opened ReadModels
  import opened Engine
  import opened Coherence
  import opened Invariants
  import opened Theorems
  import opened Spans

  // ----- the projected workflow status -----

  ghost predicate Diverges(s: State) {
    s.models.workflow.Some? && s.models.workflow.value.status != s.status
  }

  lemma SubmitShown(g: Graph, s: State, t: Id, outputs: Record, expected: Option<int>)
    requires Valid(g) && Inv(g, s) && SubmitRefusal(g, s, t, outputs, expected).None?
    ensures var next := SubmitStep(g, s, t, outputs, expected).value;
            && next.status == (if OthersDone(s.rows, t) then WfCompleted else WfRunning)
            && next.models.workflow.Some?
            && next.models.workflow.value.status ==
               (if OthersDone(s.rows, t) then WfCompleted else s.models.workflow.value.status)
  {
    SubmitExact(g, s, t, outputs, expected);
    WorkedRows(g, s, t, outputs);
    WorkedCoherent(g, s, t, outputs);
    AdvanceExact(g, Worked(g, s, t, outputs));
  }

  lemma ReopenShown(g: Graph, s: State, t: Id, expected: Option<int>, reason: string, reopenTarget: bool)
    requires Valid(g) && Inv(g, s) && ReopenRefusal(g, s, t, expected, reopenTarget).None?
    ensures var next := ReopenStep(g, s, t, expected, reason, reopenTarget).value;
            && next.status == WfRunning && next.models.workflow.Some?
            && next.models.workflow.value.status == s.models.workflow.value.status
  {
    AffectedByLog(g, s, t, reason, reopenTarget);
    if AffectsSome(g, s.rows, t, reopenTarget) {
      ReworkedExact(g, s, t, reason, reopenTarget);
      UnwoundNotDone(g, s.rows, Reworked(g, s, t, reason, reopenTarget).rows, t, reopenTarget);
      AdvanceExact(g, Reworked(g, s, t, reason, reopenTarget));
    }
  }

  /** Once some row has been taken back, not every task is completed. */
  lemma UnwoundNotDone(g: Graph, rows: map<Id, Row>, next: map<Id, Row>, t: Id, reopenTarget: bool)
    requires next.Keys == rows.Keys && forall u :: u in rows <==> u in TaskIds(g.nodes)
    requires forall u :: u in rows ==> next[u] == UnwoundRow(g, rows, t, reopenTarget, u)
    requires AffectsSome(g, rows, t, reopenTarget)
    ensures !AllDone(g, next)
  {
    if reopenTarget && t in rows && rows[t].status == Completed {
      assert next[t].status != Completed;
    } else {
      var u :| u in rows && Reaches(g.edges, t, u) && Invalidatable(rows[u]);
      assert next[u].status != Completed;
    }
  }

  /** What a call does to the divergence, judged on the state before it. */
  ghost function DivergesEffect(g: Graph, s: State, call: Call): Effect {
    if Refusal(g, s, call).Some? then Keeps
    else if call.Reopen? && s.status == WfCompleted then Begins
    else if call.Reopen? || (call.Submit? && !OthersDone(s.rows, call.node)) then Keeps
    else Ends
  }

  ghost predicate DivergesLaw(g: Graph, s: State, call: Call)
    requires RowsAreTasks(g, s)
  {
    var effect := DivergesEffect(g, s, call);
    Diverges(Apply(g, s, call)) <==> effect.Begins? || (effect.Keeps? && Diverges(s))
  }

  lemma DivergesSubmit(g: Graph, s: State, call: Call)
    requires Valid(g) && Inv(g, s) && call.Submit?
    ensures DivergesLaw(g, s, call)
  {
    if Refusal(g, s, call).None? {
      SubmitShown(g, s, call.node, call.outputs, call.expected);
    }
  }

  lemma DivergesStatus(g: Graph, s: State, call: Call)
    requires Valid(g) && Inv(g, s) && (call.Pause? || call.Cancel?)
    ensures DivergesLaw(g, s, call)
  {
    if Refusal(g, s, call).None? {
      if call.Pause? {
        ChangeStatusInv(g, s, WfPaused, WorkflowPausedEvent, call.expected);
      } else {
        ChangeStatusInv(g, s, WfCancelled, WorkflowCancelledEvent, call.expected);
      }
    }
  }

  lemma DivergesResume(g: Graph, s: State, call: Call)
    requires Valid(g) && Inv(g, s) && call.Resume?
    ensures DivergesLaw(g, s, call)
  {
    if Refusal(g, s, call).None? {
      ChangeStatusInv(g, s, WfRunning, WorkflowResumed, call.expected);
      AdvanceExact(g, ChangeStatus(s, WfRunning, WorkflowResumed, call.expected).value);
    }
  }

  lemma DivergesReopen(g: Graph, s: State, call: Call)
    requires Valid(g) && Inv(g, s) && call.Reopen?
    ensures DivergesLaw(g, s, call)
  {
    if Refusal(g, s, call).None? {
      ReopenShown(g, s, call.node, call.expected, call.reason, call.reopenTarget);
    }
  }

  /** The projected status is wrong from the reopening of a completed instance until the next workflow event. */
  lemma StatusDivergesExactly(g: Graph, s: State, call: Call)
    requires Valid(g) && Inv(g, s)
    ensures Diverges(Apply(g, s, call)) <==>
            DivergesEffect(g, s, call).Begins? || (DivergesEffect(g, s, call).Keeps? && Diverges(s))
  {
    assert DivergesLaw(g, s, call) by {
      match call
      case Submit(_, _, _) => DivergesSubmit(g, s, call);
      case Pause(_) => DivergesStatus(g, s, call);
      case Resume(_) => DivergesResume(g, s, call);
      case Cancel(_, _) => DivergesStatus(g, s, call);
      case Reopen(_, _, _, _) => DivergesReopen(g, s, call);
    }
  }

  // ----- the projected status of a task -----

  /** The status that the projection shows for a task, if it has an entry for it. */
  ghost function Shown(models: Reads, u: Id): Option<NodeStatus> {
    if models.workflow.Some? && u in models.workflow.value.nodes then Some(models.workflow.value.nodes[u].status)
    else None
  }

  /** The row is pending, but the projection shows it as invalidated. */
  ghost predicate Behind(s: State, u: Id) {
    u in s.rows && s.rows[u].status == Pending && Shown(s.models, u) == Some(Invalidated)
  }

  ghost function ShownBy(e: Event): NodeStatus
    requires AboutNode(e)
  {
    match e
    case NodeReady(_) => Pending
    case NodeStarted(_, _) => Running
    case NodeCompleted(_, _, _, _) => Completed
    case NodeInvalidated(_, _) => Invalidated
  }

  lemma AppendShows(s: State, e: Event, u: Id)
    ensures Shown(Append(s, e).models, u) ==
            if AboutNode(e) && e.node == u then Some(ShownBy(e))
            else if e.NodeFailed? && e.node == u then Some(Failed)
            else Shown(s.models, u)
  {
  }

  lemma {:induction false} PromoteAllShows(s: State, ready: seq<Id>, u: Id)
    requires forall t :: t in ready ==> t in s.rows
    ensures Shown(PromoteAll(s, ready).models, u) == if u in ready then Some(Pending) else Shown(s.models, u)
  {
    if ready == [] {
    } else {
      var front, t := ready[..|ready| - 1], ready[|ready| - 1];
      assert forall x :: x in ready <==> x in front || x == t;
      PromoteAllShows(s, front, u);
      var before := PromoteAll(s, front);
      AppendShows(before.(rows := before.rows[t := before.rows[t].(status := Pending)]), NodeReady(t), u);
    }
  }

  lemma {:induction false} InvalidateAllShows(s: State, tasks: seq<Id>, reason: string, u: Id)
    ensures Shown(InvalidateAll(s, tasks, reason).models, u) ==
            if u in tasks && u in s.rows && Invalidatable(s.rows[u]) then Some(Invalidated) else Shown(s.models, u)
  {
    if tasks == [] {
    } else {
      var front, t := tasks[..|tasks| - 1], tasks[|tasks| - 1];
      assert forall x :: x in tasks <==> x in front || x == t;
      InvalidateAllShows(s, front, reason, u);
      InvalidateAllExact(s, front, reason);
      var before := InvalidateAll(s, front, reason);
      if t in before.rows && Invalidatable(before.rows[t]) {
        var row := before.rows[t].(status := Invalidated);
        AppendShows(before.(rows := before.rows[t := row]), NodeInvalidated(t, reason), u);
      }
    }
  }

  /** A scheduler pass leaves every lag as it is. */
  lemma AdvanceBehind(g: Graph, s: State, u: Id)
    requires DistinctIds(g) && RowsAreTasks(g, s)
    ensures Behind(Advance(g, s), u) <==> Behind(s, u)
  {
    if s.status == WfRunning {
      TasksAgree(g);
      var ready := ReadyAmong(g, s.rows, TaskIds(g.nodes));
      PromoteAllExact(s, ready);
      PromoteAllShows(s, ready, u);
      var promoted := PromoteAll(s, ready);
      AppendShows(promoted.(status := WfCompleted, revision := promoted.revision + 1), WorkflowCompletedEvent, u);
    }
  }

  lemma WorkedBehind(g: Graph, s: State, t: Id, outputs: Record, u: Id)
    requires t in s.rows && IsTask(g, t) && Executable(g, s, t, outputs)
    ensures Behind(Worked(g, s, t, outputs), u) <==> Behind(s, u) && u != t
  {
    WorkedRows(g, s, t, outputs);
    var row := s.rows[t].(status := Running);
    AppendShows(s.(rows := s.rows[t := row]), NodeStarted(t, s.rows[t].currentExecution + 1), u);
    var begun, x := Begin(s, t), Latest(Worked(g, s, t, outputs).rows[t]);
    var cost := CostOf(DefinitionOf(g, t), x.outputs);
    AppendShows(begun.(rows := Worked(g, s, t, outputs).rows), NodeCompleted(t, x.number, x.outputs, cost), u);
  }

  lemma UnwoundBehind(g: Graph, s: State, t: Id, reason: string, reopenTarget: bool, u: Id)
    requires DistinctIds(g) && Acyclic(g.edges) && RowsAreTasks(g, s) && t in s.rows
    ensures Behind(Unwound(g, s, t, reason, reopenTarget), u) <==>
            || (reopenTarget && u == t && s.rows[t].status == Completed)
            || (Behind(s, u) && !Reaches(g.edges, t, u))
  {
    TasksAgree(g);
    UnwoundExact(g, s, t, reason, reopenTarget);
    DownstreamTasksExact(g, t);
    var first := if reopenTarget then ReopenTarget(s, t, reason) else s;
    if reopenTarget {
      ReopenTargetExact(s, t, reason);
      AppendShows(s.(rows := s.rows[t := s.rows[t].(status := Pending)]), NodeInvalidated(t, reason), u);
    }
    InvalidateAllShows(first, DownstreamTasks(g, t), reason, u);
  }

  lemma SubmitBehind(g: Graph, s: State, t: Id, outputs: Record, expected: Option<int>, u: Id)
    requires DistinctIds(g) && RowsAreTasks(g, s) && SubmitRefusal(g, s, t, outputs, expected).None?
    ensures Behind(SubmitStep(g, s, t, outputs, expected).value, u) <==> Behind(s, u) && u != t
  {
    WorkedBehind(g, s, t, outputs, u);
    AdvanceBehind(g, Worked(g, s, t, outputs), u);
  }

  lemma StatusBehind(s: State, target: WorkflowStatus, e: Event, expected: Option<int>, u: Id)
    requires StatusRefusal(s, target, expected).None? && !AboutNode(e) && !e.NodeFailed?
    ensures Behind(ChangeStatus(s, target, e, expected).value, u) <==> Behind(s, u)
  {
    AppendShows(s.(status := target, revision := s.revision + 1), e, u);
  }

  lemma ResumeBehind(g: Graph, s: State, expected: Option<int>, u: Id)
    requires DistinctIds(g) && RowsAreTasks(g, s) && StatusRefusal(s, WfRunning, expected).None?
    ensures Behind(ResumeStep(g, s, expected).value, u) <==> Behind(s, u)
  {
    StatusBehind(s, WfRunning, WorkflowResumed, expected, u);
    AdvanceBehind(g, ChangeStatus(s, WfRunning, WorkflowResumed, expected).value, u);
  }

  lemma ReopenBehind(
    g: Graph, s: State, t: Id, expected: Option<int>, reason: string, reopenTarget: bool, u: Id)
    requires Valid(g) && Inv(g, s) && ReopenRefusal(g, s, t, expected, reopenTarget).None?
    ensures Behind(ReopenStep(g, s, t, expected, reason, reopenTarget).value, u) <==>
            || (reopenTarget && u == t && s.rows[t].status == Completed)
            || (Behind(s, u) && !Reaches(g.edges, t, u))
  {
    UnwoundBehind(g, s, t, reason, reopenTarget, u);
    AffectedByLog(g, s, t, reason, reopenTarget);
    if AffectsSome(g, s.rows, t, reopenTarget) {
      ReopenIs(g, s, t, expected, reason, reopenTarget);
      AdvanceBehind(g, Reworked(g, s, t, reason, reopenTarget), u);
    } else {
      ReopenUnaffected(g, s, t, expected, reason, reopenTarget);
    }
  }

  /** What a call does to the lag of one task, judged on the state before it. */
  ghost function BehindEffect(g: Graph, s: State, call: Call, u: Id): Effect {
    if Refusal(g, s, call).Some? then Keeps
    else if call.Reopen? && call.reopenTarget && call.node == u && u in s.rows && s.rows[u].status == Completed then
      Begins
    else if (call.Submit? && call.node == u) || (call.Reopen? && Reaches(g.edges, call.node, u)) then Ends
    else Keeps
  }

  /** The law of one call: it holds after the call if the call begins it, or keeps it and it held before. */
  ghost predicate BehindLaw(g: Graph, s: State, call: Call, u: Id)
    requires RowsAreTasks(g, s)
  {
    var effect := BehindEffect(g, s, call, u);
    Behind(Apply(g, s, call), u) <==> effect.Begins? || (effect.Keeps? && Behind(s, u))
  }

  lemma BehindSubmit(g: Graph, s: State, call: Call, u: Id)
    requires Valid(g) && Inv(g, s) && call.Submit?
    ensures BehindLaw(g, s, call, u)
  {
    if Refusal(g, s, call).None? {
      SubmitBehind(g, s, call.node, call.outputs, call.expected, u);
    }
  }

  lemma BehindStatus(g: Graph, s: State, call: Call, u: Id)
    requires Valid(g) && Inv(g, s) && (call.Pause? || call.Cancel?)
    ensures BehindLaw(g, s, call, u)
  {
    if Refusal(g, s, call).None? {
      if call.Pause? {
        StatusBehind(s, WfPaused, WorkflowPausedEvent, call.expected, u);
      } else {
        StatusBehind(s, WfCancelled, WorkflowCancelledEvent, call.expected, u);
      }
    }
  }

  lemma BehindResume(g: Graph, s: State, call: Call, u: Id)
    requires Valid(g) && Inv(g, s) && call.Resume?
    ensures BehindLaw(g, s, call, u)
  {
    if Refusal(g, s, call).None? {
      ResumeBehind(g, s, call.expected, u);
    }
  }

  lemma BehindReopen(g: Graph, s: State, call: Call, u: Id)
    requires Valid(g) && Inv(g, s) && call.Reopen?
    ensures BehindLaw(g, s, call, u)
  {
    if Refusal(g, s, call).None? {
      ReopenBehind(g, s, call.node, call.expected, call.reason, call.reopenTarget, u);
    }
  }

  /** A task falls behind when it is reopened while completed, and catches up when it is submitted or taken back. */
  lemma BehindExactly(g: Graph, s: State, call: Call, u: Id)
    requires Valid(g) && Inv(g, s)
    ensures Behind(Apply(g, s, call), u) <==>
            BehindEffect(g, s, call, u).Begins? || (BehindEffect(g, s, call, u).Keeps? && Behind(s, u))
  {
    assert BehindLaw(g, s, call, u) by {
      match call
      case Submit(_, _, _) => BehindSubmit(g, s, call, u);
      case Pause(_) => BehindStatus(g, s, call, u);
      case Resume(_) => BehindResume(g, s, call, u);
      case Cancel(_, _) => BehindStatus(g, s, call, u);
      case Reopen(_, _, _, _) => BehindReopen(g, s, call, u);
    }
  }

  // ----- along a run -----

  lemma StartAgrees(g: Graph, metadata: Record, seeds: map<Id, Record>)
    requires DistinctIds(g)
    ensures var s := StartWorkflow(g, metadata, seeds);
            s.models.workflow.Some? && !Diverges(s) && forall u :: !Behind(s, u)
  {
    LaunchedCoherent(g, metadata, seeds);
    var s := Launched(g, metadata, seeds);
    AdvanceExact(g, s);
    forall u
      ensures !Behind(StartWorkflow(g, metadata, seeds), u)
    {
      AdvanceBehind(g, s, u);
    }
  }

  lemma RunsAgree(g: Graph, states: seq<State>, calls: seq<Call>)
    requires Valid(g) && IsRun(g, states, calls)
    ensures !Diverges(states[0]) && forall u :: !Behind(states[0], u)
  {
    assert Arises(g, states, calls, 0);
    var metadata, seeds :| states[0] == StartWorkflow(g, metadata, seeds);
    StartAgrees(g, metadata, seeds);
  }

  ghost function DivergesEffects(g: Graph, states: seq<State>, calls: seq<Call>): (effects: seq<Effect>)
    requires |calls| < |states|
  {
    seq(|calls|, i requires 0 <= i < |calls| => DivergesEffect(g, states[i], calls[i]))
  }

  lemma DivergesFollows(g: Graph, states: seq<State>, calls: seq<Call>, holds: seq<bool>, i: nat)
    requires Valid(g) && IsRun(g, states, calls) && i < |calls| && |holds| == |states|
    requires holds[i] == Diverges(states[i]) && holds[i + 1] == Diverges(states[i + 1])
    ensures Follows(holds, DivergesEffects(g, states, calls), i)
  {
    RunMoves(g, states, calls, i);
    StatusDivergesExactly(g, states[i], calls[i]);
  }

  /** Along a run: the status differs exactly since a completed instance was reopened. */
  lemma DivergesAlongRun(g: Graph, states: seq<State>, calls: seq<Call>, k: nat)
    requires Valid(g) && IsRun(g, states, calls) && k <= |calls|
    ensures Diverges(states[k]) <==> Since(DivergesEffects(g, states, calls), k)
  {
    var holds := seq(|states|, i requires 0 <= i < |states| => Diverges(states[i]));
    RunsAgree(g, states, calls);
    forall i | 0 <= i < |calls|
      ensures Follows(holds, DivergesEffects(g, states, calls), i)
    {
      DivergesFollows(g, states, calls, holds, i);
    }
    SinceExactly(holds, DivergesEffects(g, states, calls), k);
  }

  ghost function BehindEffects(g: Graph, states: seq<State>, calls: seq<Call>, u: Id): (effects: seq<Effect>)
    requires |calls| < |states|
  {
    seq(|calls|, i requires 0 <= i < |calls| => BehindEffect(g, states[i], calls[i], u))
  }

  lemma BehindFollows(g: Graph, states: seq<State>, calls: seq<Call>, u: Id, holds: seq<bool>, i: nat)
    requires Valid(g) && IsRun(g, states, calls) && i < |calls| && |holds| == |states|
    requires holds[i] == Behind(states[i], u) && holds[i + 1] == Behind(states[i + 1], u)
    ensures Follows(holds, BehindEffects(g, states, calls, u), i)
  {
    RunMoves(g, states, calls, i);
    BehindExactly(g, states[i], calls[i], u);
  }

  /** Along a run: a task is behind exactly since it was reopened while completed. */
  lemma BehindAlongRun(g: Graph, states: seq<State>, calls: seq<Call>, u: Id, k: nat)
    requires Valid(g) && IsRun(g, states, calls) && k <= |calls|
    ensures Behind(states[k], u) <==> Since(BehindEffects(g, states, calls, u), k)
  {
    var holds := seq(|states|, i requires 0 <= i < |states| => Behind(states[i], u));
    RunsAgree(g, states, calls);
    forall i | 0 <= i < |calls|
      ensures Follows(holds, BehindEffects(g, states, calls, u), i)
    {
      BehindFollows(g, states, calls, u, holds, i);
    }
    SinceExactly(holds, BehindEffects(g, states, calls, u), k);
  }

  // ----- projection and rows -----

  /** Status and values of one task as projected, in any state that satisfies the invariant. */
  lemma ProjectedTask(g: Graph, s: State, t: Id)
    requires Inv(g, s) && t in s.rows
    ensures var status, values := s.rows[t].status, s.models.values;
            && Shown(s.models, t) ==
               (if status == Waiting then None else if Behind(s, t) then Some(Invalidated) else Some(status))
            && (Behind(s, t) ==> status == Pending)
            && (status == Completed ==>
                  s.rows[t].executions != [] && t in values && values[t] == Latest(s.rows[t]).outputs)
            && (status != Completed && t in values ==> values[t] == map[])
  {
    assert RowAgrees(g, s.rows, s.log, s.models, t);
  }

  /**
   * The read models are the replay of the log. A task is shown with the status of its row, except that a waiting one
   * has no entry and that one reopened while completed shows as invalidated until it is submitted or taken back. The
   * workflow is shown with its status, except that a reopened one shows as completed until the next workflow event.
   */
  lemma ProjectionTheorem(g: Graph, states: seq<State>, calls: seq<Call>, k: nat, t: Id)
    requires Valid(g) && IsRun(g, states, calls) && k <= |calls|
    ensures var s := states[k];
            && s.models == Replay(s.log) && Numbered(s.log)
            && s.models.workflow.Some? && s.models.workflow.value.lastSequence == |s.log|
            && (t in s.models.workflow.value.nodes || t in s.models.values ==> t in s.rows)
            && s.models.workflow.value.status ==
               (if Since(DivergesEffects(g, states, calls), k) then WfCompleted else s.status)
            && (Since(DivergesEffects(g, states, calls), k) ==> s.status == WfRunning)
    ensures var s, behind := states[k], Since(BehindEffects(g, states, calls, t), k);
            t in s.rows ==>
              var status, values := s.rows[t].status, s.models.values;
              && Shown(s.models, t) ==
                 (if status == Waiting then None else if behind then Some(Invalidated) else Some(status))
              && (behind ==> status == Pending)
              && (status == Completed ==>
                    s.rows[t].executions != [] && t in values && values[t] == Latest(s.rows[t]).outputs)
              && (status != Completed && t in values ==> values[t] == map[])
  {
    RunInv(g, states, calls, k);
    DivergesAlongRun(g, states, calls, k);
    BehindAlongRun(g, states, calls, t, k);
    if t in states[k].rows {
      ProjectedTask(g, states[k], t);
    }
  }
}
