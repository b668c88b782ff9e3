/** Main results about every reachable state of a workflow instance. */
module Theorems {
  import opened Values
  import opened Graphs
  import opened GraphSearch
  import opened Acyclicity
  import opened States
  import opened Executors
  import opened ReadModels
  import opened Engine
  import opened Coherence
  import opened Invariants
  import opened Spans

  /** The last state of some run. */
  ghost predicate Reachable(g: Graph, s: State) {
    exists states, calls :: IsRun(g, states, calls) && states[|calls|] == s
  }

  lemma ReachableInv(g: Graph, s: State)
    requires Valid(g) && Reachable(g, s)
    ensures Inv(g, s)
  {
    var states, calls :| IsRun(g, states, calls) && states[|calls|] == s;
    RunInv(g, states, calls, |calls|);
  }

  // ----- scheduling -----

  /** Completed tasks are closed under direct task predecessors, and pending is exactly the frontier. */
  lemma FrontierTheorem(g: Graph, s: State, t: Id)
    requires Valid(g) && Reachable(g, s)
    ensures t in s.rows <==> IsTask(g, t)
    ensures t in s.rows ==>
              var status := s.rows[t].status;
              && (status == Completed ==> DirectReady(g, s.rows, t))
              && (status == Pending <==> status != Completed && DirectReady(g, s.rows, t))
              && (status == Completed || status == Pending || status == Waiting || status == Invalidated)
  {
    ReachableInv(g, s);
    TasksAgree(g);
  }

  /** An instance with an uncompleted task always offers a pending one. */
  lemma NoDeadlock(g: Graph, s: State) returns (t: Id)
    requires Valid(g) && Inv(g, s) && !AllDone(g, s.rows)
    ensures t in s.rows && s.rows[t].status == Pending
  {
    TasksAgree(g);
    var open := set u | u in s.rows && s.rows[u].status != Completed;
    var some :| some in TaskIds(g.nodes) && !(some in s.rows && s.rows[some].status == Completed);
    assert some in open;
    t := MinimumExists(g.edges, open);
    forall p | Edge(p, t) in g.edges && IsTask(g, p)
      ensures p in s.rows && s.rows[p].status == Completed
    {
      assert p in s.rows;
      assert p !in open;
    }
    assert DirectReady(g, s.rows, t);
  }

  /** One pass over any running instance: the promoted rows, and completion exactly when all tasks are completed. */
  lemma PassRows(g: Graph, s: State)
    requires DistinctIds(g) && RowsAreTasks(g, s) && s.status == WfRunning
    ensures var next := Advance(g, s);
            && next.rows.Keys == s.rows.Keys
            && (forall t :: t in s.rows ==> next.rows[t] == Promoted(g, s.rows, t))
            && next.status == if AllDone(g, s.rows) then WfCompleted else WfRunning
  {
    TasksAgree(g);
    PromoteAllExact(s, ReadyAmong(g, s.rows, TaskIds(g.nodes)));
    PromotionKeepsDone(g, s.rows, PromoteAll(s, ReadyAmong(g, s.rows, TaskIds(g.nodes))).rows);
  }

  /** A second scheduler pass finds nothing to do and appends nothing. */
  lemma AdvanceIdempotent(g: Graph, s: State)
    requires DistinctIds(g) && RowsAreTasks(g, s) && s.status == WfRunning
    ensures RowsAreTasks(g, Advance(g, s)) && Advance(g, Advance(g, s)) == Advance(g, s)
    ensures Advance(g, s).status == WfCompleted <==> AllDone(g, s.rows)
  {
    PassRows(g, s);
    var next := Advance(g, s);
    PromotionKeepsDone(g, s.rows, next.rows);
    NothingReady(g, s.rows, next.rows, TaskIds(g.nodes));
  }

  /** After a promotion no row is ready any more. */
  lemma NothingReady(g: Graph, rows: map<Id, Row>, next: map<Id, Row>, tasks: seq<Id>)
    requires next.Keys == rows.Keys && forall t :: t in rows ==> next[t] == Promoted(g, rows, t)
    requires forall t :: t in tasks ==> t in rows
    ensures ReadyAmong(g, next, tasks) == []
  {
    forall t | t in tasks
      ensures !Ready(g, next, t)
    {
      SameCompletedSameReady(g, rows, next, t);
      assert next[t] == Promoted(g, rows, t);
    }
    assert forall t :: t !in ReadyAmong(g, next, tasks);
  }

  /** The ready tasks, each once and in definition order, and one NODE_READY for each. */
  lemma AdvanceEvents(g: Graph, s: State)
    requires DistinctIds(g) && Coherent(g, s) && s.status == WfRunning && !AllDone(g, s.rows)
    ensures var ready := ReadyAmong(g, s.rows, TaskIds(g.nodes));
            var next := Advance(g, s);
            && NoRepeats(ready) && (forall t :: t in ready <==> t in s.rows && Ready(g, s.rows, t))
            && |next.log| == |s.log| + |ready| && s.log == next.log[..|s.log|]
            && forall i :: 0 <= i < |ready| ==> next.log[|s.log| + i].event == NodeReady(ready[i])
  {
    TasksAgree(g);
    var ready := ReadyAmong(g, s.rows, TaskIds(g.nodes));
    ReadyAmongNoRepeats(g, s.rows, TaskIds(g.nodes));
    PassPromotes(g, s);
    PromoteAllLog(s, ready);
    PromotionKeepsDone(g, s.rows, PromoteAll(s, ready).rows);
  }

  // ----- submitting -----

  lemma AdvanceRows(g: Graph, s: State)
    requires DistinctIds(g) && Advanceable(g, s)
    ensures var next := Advance(g, s);
            && next.rows.Keys == s.rows.Keys
            && (forall u :: u in s.rows ==> next.rows[u] == Promoted(g, s.rows, u))
            && next.status == (if AllDone(g, next.rows) then WfCompleted else WfRunning)
            && next.revision == s.revision + (if AllDone(g, next.rows) then 1 else 0)
  {
    AdvanceExact(g, s);
    PromotionKeepsDone(g, s.rows, Advance(g, s).rows);
  }

  /** No other task is left to do. */
  ghost predicate OthersDone(rows: map<Id, Row>, t: Id) {
    forall u :: u in rows && u != t ==> rows[u].status == Completed
  }

  lemma CompletionByOthers(g: Graph, rows: map<Id, Row>, worked: map<Id, Row>, next: map<Id, Row>, t: Id)
    requires t in rows && forall u :: u in rows <==> u in TaskIds(g.nodes)
    requires t in worked && worked == rows[t := worked[t]] && worked[t].status == Completed
    requires next.Keys == rows.Keys && forall u :: u in rows ==> next[u] == Promoted(g, worked, u)
    ensures AllDone(g, next) <==> OthersDone(rows, t)
  {
    if AllDone(g, next) {
      forall u | u in rows && u != t
        ensures rows[u].status == Completed
      {
        assert next[u].status == Completed;
      }
    }
  }

  /** An accepted submit: exactly one more execution, the newly ready tasks, and completion with the last open task. */
  lemma SubmitExact(g: Graph, s: State, t: Id, outputs: Record, expected: Option<int>)
    requires Valid(g) && Inv(g, s) && SubmitRefusal(g, s, t, outputs, expected).None?
    ensures s.status == WfRunning && t in s.rows && s.rows[t].status == Pending
    ensures IsTask(g, t) && Executable(g, s, t, outputs)
    ensures var next, worked := SubmitStep(g, s, t, outputs, expected).value, Worked(g, s, t, outputs).rows;
            && next.rows.Keys == s.rows.Keys
            && worked == s.rows[t := worked[t]] && worked[t].status == Completed
            && worked[t].executions == s.rows[t].executions + [Latest(worked[t])]
            && (forall u :: u in s.rows ==> next.rows[u] == Promoted(g, worked, u))
            && (AllDone(g, next.rows) <==> OthersDone(s.rows, t))
            && next.status == (if OthersDone(s.rows, t) then WfCompleted else WfRunning)
            && next.revision == s.revision + (if OthersDone(s.rows, t) then 1 else 0)
  {
    WorkedRows(g, s, t, outputs);
    WorkedAdvanceable(g, s, t, outputs);
    var worked := Worked(g, s, t, outputs);
    AdvanceRows(g, worked);
    CompletionByOthers(g, s.rows, worked.rows, Advance(g, worked).rows, t);
  }

  // ----- honest completion -----

  /** Every task is completed, yet the instance still counts as unfinished. */
  ghost predicate Limbo(g: Graph, s: State) {
    AllDone(g, s.rows) && (s.status == WfRunning || s.status == WfPaused)
  }

  /** A scheduler pass on a running instance never leaves it in limbo. */
  lemma AdvanceCloses(g: Graph, s: State)
    requires DistinctIds(g) && Coherent(g, s) && s.status == WfRunning
    ensures var next := Advance(g, s);
            && (AllDone(g, next.rows) <==> AllDone(g, s.rows))
            && next.status == if AllDone(g, next.rows) then WfCompleted else WfRunning
  {
    AdvanceExact(g, s);
    PromotionKeepsDone(g, s.rows, Advance(g, s).rows);
  }

  lemma SubmitNoLimbo(g: Graph, s: State, t: Id, outputs: Record, expected: Option<int>)
    requires Valid(g) && Inv(g, s) && SubmitRefusal(g, s, t, outputs, expected).None?
    ensures s.status == WfRunning && !Limbo(g, SubmitStep(g, s, t, outputs, expected).value)
  {
    SubmitExact(g, s, t, outputs, expected);
  }

  lemma ResumeNoLimbo(g: Graph, s: State, expected: Option<int>)
    requires Valid(g) && Inv(g, s) && StatusRefusal(s, WfRunning, expected).None?
    ensures !Limbo(g, ResumeStep(g, s, expected).value)
  {
    ChangeStatusInv(g, s, WfRunning, WorkflowResumed, expected);
    AdvanceCloses(g, ChangeStatus(s, WfRunning, WorkflowResumed, expected).value);
  }

  lemma ReopenAffectedNoLimbo(g: Graph, s: State, t: Id, expected: Option<int>, reason: string, reopenTarget: bool)
    requires Valid(g) && Inv(g, s) && ReopenRefusal(g, s, t, expected, reopenTarget).None?
    requires t in s.rows && AffectsSome(g, s.rows, t, reopenTarget)
    ensures !Limbo(g, ReopenStep(g, s, t, expected, reason, reopenTarget).value)
  {
    AffectedByLog(g, s, t, reason, reopenTarget);
    ReopenIs(g, s, t, expected, reason, reopenTarget);
    ReworkedExact(g, s, t, reason, reopenTarget);
    AdvanceCloses(g, Reworked(g, s, t, reason, reopenTarget));
  }

  lemma ReopenLimbo(g: Graph, s: State, t: Id, expected: Option<int>, reason: string, reopenTarget: bool)
    requires Valid(g) && Inv(g, s) && ReopenRefusal(g, s, t, expected, reopenTarget).None?
    ensures Limbo(g, ReopenStep(g, s, t, expected, reason, reopenTarget).value) <==>
            (s.status == WfCompleted || Limbo(g, s)) && !reopenTarget && DownstreamTasks(g, t) == []
  {
    if s.status == WfCompleted || Limbo(g, s) {
      AllDoneAffects(g, s.rows, t, reopenTarget);
    }
    if AffectsSome(g, s.rows, t, reopenTarget) {
      ReopenAffectedNoLimbo(g, s, t, expected, reason, reopenTarget);
    } else {
      ReopenUnaffected(g, s, t, expected, reason, reopenTarget);
    }
  }

  lemma AllDoneAffects(g: Graph, rows: map<Id, Row>, t: Id, reopenTarget: bool)
    requires DistinctIds(g) && AllDone(g, rows) && IsTask(g, t) && forall u :: u in rows <==> u in TaskIds(g.nodes)
    ensures AffectsSome(g, rows, t, reopenTarget) <==> reopenTarget || DownstreamTasks(g, t) != []
  {
    TasksAgree(g);
    DownstreamTasksExact(g, t);
    if DownstreamTasks(g, t) != [] {
      var u := DownstreamTasks(g, t)[0];
      assert u in DownstreamTasks(g, t);
      assert u in rows && Reaches(g.edges, t, u) && Invalidatable(rows[u]);
    }
  }

  /** A reopen call that leaves its target alone although nothing comes after it. */
  ghost predicate Spares(g: Graph, call: Call) {
    call.Reopen? && !call.reopenTarget && DownstreamTasks(g, call.node) == []
  }

  /** What a call does to limbo, judged on the state before it. */
  ghost function LimboEffect(g: Graph, s: State, call: Call): Effect {
    if Refusal(g, s, call).Some? then Keeps
    else if s.status == WfCompleted && Spares(g, call) then Begins
    else if call.Pause? || Spares(g, call) then Keeps
    else Ends
  }

  /** It holds after the call if the call begins it, or keeps it and it held before. */
  ghost predicate LimboLaw(g: Graph, s: State, call: Call)
    requires RowsAreTasks(g, s)
  {
    var effect := LimboEffect(g, s, call);
    Limbo(g, Apply(g, s, call)) <==> effect.Begins? || (effect.Keeps? && Limbo(g, s))
  }

  lemma LimboSubmit(g: Graph, s: State, call: Call)
    requires Valid(g) && Inv(g, s) && call.Submit?
    ensures LimboLaw(g, s, call)
  {
    if Refusal(g, s, call).None? {
      SubmitNoLimbo(g, s, call.node, call.outputs, call.expected);
      assert LimboEffect(g, s, call).Ends?;
    }
  }

  lemma LimboStatus(g: Graph, s: State, call: Call)
    requires Valid(g) && Inv(g, s) && (call.Pause? || call.Cancel?)
    ensures LimboLaw(g, s, call)
  {
    assert s.status == WfCompleted ==> Refusal(g, s, call).Some?;
  }

  lemma LimboResume(g: Graph, s: State, call: Call)
    requires Valid(g) && Inv(g, s) && call.Resume?
    ensures LimboLaw(g, s, call)
  {
    if Refusal(g, s, call).None? {
      ResumeNoLimbo(g, s, call.expected);
    }
  }

  lemma LimboReopen(g: Graph, s: State, call: Call)
    requires Valid(g) && Inv(g, s) && call.Reopen?
    ensures LimboLaw(g, s, call)
  {
    if Refusal(g, s, call).None? {
      ReopenLimbo(g, s, call.node, call.expected, call.reason, call.reopenTarget);
    }
  }

  /** Sparing the target of a completed instance leads into limbo, and only pausing and sparing stay there. */
  lemma LimboExactly(g: Graph, s: State, call: Call)
    requires Valid(g) && Inv(g, s)
    ensures Limbo(g, Apply(g, s, call)) <==>
            LimboEffect(g, s, call).Begins? || (LimboEffect(g, s, call).Keeps? && Limbo(g, s))
  {
    assert LimboLaw(g, s, call) by {
      match call
      case Submit(_, _, _) => LimboSubmit(g, s, call);
      case Pause(_) => LimboStatus(g, s, call);
      case Resume(_) => LimboResume(g, s, call);
      case Cancel(_, _) => LimboStatus(g, s, call);
      case Reopen(_, _, _, _) => LimboReopen(g, s, call);
    }
  }

  lemma ResumeIs(g: Graph, s: State)
    requires RowsAreTasks(g, s) && (s.status == WfRunning || s.status == WfPaused || s.status == WfCompleted)
    ensures var resumed := ChangeStatus(s, WfRunning, WorkflowResumed, None);
            && resumed.Ok? && resumed.value.rows == s.rows && resumed.value.status == WfRunning
            && RowsAreTasks(g, resumed.value)
            && Step(g, s, Resume(None)) == Ok(Advance(g, resumed.value))
  {
  }

  /** Resuming an instance in limbo completes it. */
  lemma LimboRecovers(g: Graph, s: State)
    requires Valid(g) && Inv(g, s) && Limbo(g, s)
    ensures Step(g, s, Resume(None)).Ok? && Step(g, s, Resume(None)).value.status == WfCompleted
  {
    ResumeIs(g, s);
    ChangeStatusInv(g, s, WfRunning, WorkflowResumed, None);
    AdvanceCloses(g, ChangeStatus(s, WfRunning, WorkflowResumed, None).value);
  }

  lemma StartNoLimbo(g: Graph, metadata: Record, seeds: map<Id, Record>)
    requires DistinctIds(g)
    ensures var s := StartWorkflow(g, metadata, seeds);
            !Limbo(g, s) && (s.status == WfCompleted <==> AllDone(g, s.rows))
  {
    LaunchedCoherent(g, metadata, seeds);
    AdvanceCloses(g, Launched(g, metadata, seeds));
  }

  /** The call numbered `k` is accepted in the state that the calls before it have led to. */
  ghost predicate Succeeds(g: Graph, states: seq<State>, calls: seq<Call>, k: nat)
    requires k < |calls| < |states|
  {
    Refusal(g, states[k], calls[k]).None?
  }

  lemma RunMoves(g: Graph, states: seq<State>, calls: seq<Call>, k: nat)
    requires Valid(g) && IsRun(g, states, calls) && k < |calls|
    ensures Inv(g, states[k]) && states[k + 1] == Apply(g, states[k], calls[k])
  {
    RunInv(g, states, calls, k);
    assert Arises(g, states, calls, k + 1);
  }

  ghost function LimboEffects(g: Graph, states: seq<State>, calls: seq<Call>): (effects: seq<Effect>)
    requires |calls| < |states|
  {
    seq(|calls|, i requires 0 <= i < |calls| => LimboEffect(g, states[i], calls[i]))
  }

  lemma LimboFollows(g: Graph, states: seq<State>, calls: seq<Call>, holds: seq<bool>, i: nat)
    requires Valid(g) && IsRun(g, states, calls) && i < |calls| && |holds| == |states|
    requires holds[i] == Limbo(g, states[i]) && holds[i + 1] == Limbo(g, states[i + 1])
    ensures Follows(holds, LimboEffects(g, states, calls), i)
  {
    RunMoves(g, states, calls, i);
    LimboExactly(g, states[i], calls[i]);
  }

  lemma LimboStarts(g: Graph, states: seq<State>, calls: seq<Call>)
    requires Valid(g) && IsRun(g, states, calls)
    ensures !Limbo(g, states[0]) && !Unclosed(g, states[0])
  {
    assert Arises(g, states, calls, 0);
    var metadata, seeds :| states[0] == StartWorkflow(g, metadata, seeds);
    StartNoLimbo(g, metadata, seeds);
  }

  /** Where a run is in limbo: exactly after a call that leads there, until an accepted call that ends it. */
  lemma LimboAlongRun(g: Graph, states: seq<State>, calls: seq<Call>, k: nat)
    requires Valid(g) && IsRun(g, states, calls) && k <= |calls|
    ensures Limbo(g, states[k]) <==> Since(LimboEffects(g, states, calls), k)
  {
    var holds := seq(|states|, i requires 0 <= i < |states| => Limbo(g, states[i]));
    LimboStarts(g, states, calls);
    forall i | 0 <= i < |calls|
      ensures Follows(holds, LimboEffects(g, states, calls), i)
    {
      LimboFollows(g, states, calls, holds, i);
    }
    SinceExactly(holds, LimboEffects(g, states, calls), k);
  }

  /** Every task is completed, yet the instance has not completed: it is in limbo, or was cancelled there. */
  ghost predicate Unclosed(g: Graph, s: State) {
    AllDone(g, s.rows) && s.status != WfCompleted
  }

  /** Like limbo, except that a cancelled instance stays as it is. */
  ghost function UnclosedEffect(g: Graph, s: State, call: Call): Effect {
    if call.Cancel? then Keeps else LimboEffect(g, s, call)
  }

  lemma CancelUnclosed(g: Graph, s: State, expected: Option<int>, reason: string)
    requires StatusRefusal(s, WfCancelled, expected).None?
    ensures Unclosed(g, CancelStep(s, expected, reason).value) <==> Unclosed(g, s)
  {
  }

  lemma ReopenNotCancelled(g: Graph, s: State, t: Id, expected: Option<int>, reason: string, reopenTarget: bool)
    requires Valid(g) && Inv(g, s) && ReopenRefusal(g, s, t, expected, reopenTarget).None?
    ensures ReopenStep(g, s, t, expected, reason, reopenTarget).value.status != WfCancelled
  {
    if AffectsSome(g, s.rows, t, reopenTarget) {
      AffectedByLog(g, s, t, reason, reopenTarget);
      ReopenIs(g, s, t, expected, reason, reopenTarget);
      ReworkedExact(g, s, t, reason, reopenTarget);
      PassRows(g, Reworked(g, s, t, reason, reopenTarget));
    } else {
      ReopenUnaffected(g, s, t, expected, reason, reopenTarget);
    }
  }

  /** Only cancelling leads to a cancelled instance, and nothing else is accepted there. */
  lemma NotCancelled(g: Graph, s: State, call: Call)
    requires Valid(g) && Inv(g, s) && Refusal(g, s, call).None? && !call.Cancel?
    ensures s.status != WfCancelled && Step(g, s, call).value.status != WfCancelled
  {
    match call
    case Submit(t, outputs, expected) => SubmitExact(g, s, t, outputs, expected);
    case Pause(_) =>
    case Resume(expected) => PassRows(g, ChangeStatus(s, WfRunning, WorkflowResumed, expected).value);
    case Reopen(t, expected, reason, reopenTarget) => ReopenNotCancelled(g, s, t, expected, reason, reopenTarget);
  }

  /** Without a cancelled instance, unclosed is the same as in limbo. */
  lemma UnclosedOrLimbo(g: Graph, s: State)
    requires s.status != WfCancelled && s.status != WfPending
    ensures Unclosed(g, s) <==> Limbo(g, s)
  {
  }

  lemma UnclosedStep(g: Graph, s: State, call: Call)
    requires Valid(g) && Inv(g, s) && Refusal(g, s, call).None? && !call.Cancel?
    ensures var next := Step(g, s, call).value;
            (Unclosed(g, next) <==> Limbo(g, next)) && (Unclosed(g, s) <==> Limbo(g, s))
  {
    NotCancelled(g, s, call);
    StepInv(g, s, call);
    UnclosedOrLimbo(g, s);
    UnclosedOrLimbo(g, Step(g, s, call).value);
  }

  lemma UnclosedExactly(g: Graph, s: State, call: Call)
    requires Valid(g) && Inv(g, s)
    ensures Unclosed(g, Apply(g, s, call)) <==>
            UnclosedEffect(g, s, call).Begins? || (UnclosedEffect(g, s, call).Keeps? && Unclosed(g, s))
  {
    if Refusal(g, s, call).None? {
      if call.Cancel? {
        CancelUnclosed(g, s, call.expected, call.reason);
      } else {
        UnclosedStep(g, s, call);
        LimboExactly(g, s, call);
      }
    }
  }

  ghost function UnclosedEffects(g: Graph, states: seq<State>, calls: seq<Call>): (effects: seq<Effect>)
    requires |calls| < |states|
  {
    seq(|calls|, i requires 0 <= i < |calls| => UnclosedEffect(g, states[i], calls[i]))
  }

  lemma UnclosedFollows(g: Graph, states: seq<State>, calls: seq<Call>, holds: seq<bool>, i: nat)
    requires Valid(g) && IsRun(g, states, calls) && i < |calls| && |holds| == |states|
    requires holds[i] == Unclosed(g, states[i]) && holds[i + 1] == Unclosed(g, states[i + 1])
    ensures Follows(holds, UnclosedEffects(g, states, calls), i)
  {
    RunMoves(g, states, calls, i);
    UnclosedExactly(g, states[i], calls[i]);
  }

  /**
   * Completed means all tasks completed. The other way round it fails exactly since a call that spares the target of
   * a completed instance, so it holds on every run without one.
   */
  lemma HonestCompletion(g: Graph, states: seq<State>, calls: seq<Call>, k: nat)
    requires Valid(g) && IsRun(g, states, calls) && k <= |calls|
    ensures states[k].status == WfCompleted ==> AllDone(g, states[k].rows)
    ensures Unclosed(g, states[k]) <==> Since(UnclosedEffects(g, states, calls), k)
    ensures (forall i :: 0 <= i < k ==> !LimboEffect(g, states[i], calls[i]).Begins?) ==>
              (states[k].status == WfCompleted <==> AllDone(g, states[k].rows))
  {
    var holds := seq(|states|, i requires 0 <= i < |states| => Unclosed(g, states[i]));
    LimboStarts(g, states, calls);
    forall i | 0 <= i < |calls|
      ensures Follows(holds, UnclosedEffects(g, states, calls), i)
    {
      UnclosedFollows(g, states, calls, holds, i);
    }
    SinceExactly(holds, UnclosedEffects(g, states, calls), k);
    RunInv(g, states, calls, k);
  }

  // ----- data flow -----

  /** Completed work never rests on stale values: its recorded input is what the source holds now. */
  lemma NoStaleWork(g: Graph, s: State, t: Id, i: nat)
    requires Valid(g) && Reachable(g, s) && IsTask(g, t) && IsLastFor(InputsOf(g, t), i)
    requires InputsOf(g, t)[i].source.Upstream? && t in s.rows && s.rows[t].status == Completed
    ensures var b := InputsOf(g, t)[i];
            var source := b.source.node;
            && source in s.rows && s.rows[source].status == Completed
            && s.rows[t].executions != [] && s.rows[source].executions != []
            && b.inputKey in Latest(s.rows[t]).inputs && b.source.outputKey in Latest(s.rows[source]).outputs
            && Latest(s.rows[t]).inputs[b.inputKey] == Latest(s.rows[source]).outputs[b.source.outputKey]
  {
    ReachableInv(g, s);
    assert HasFreshWork(g, s.rows, t);
    assert BindingFresh(s.rows, Latest(s.rows[t]), InputsOf(g, t)[i]);
  }

  /** One named value of one task. */
  datatype Port = Port(task: Id, key: string)

  ghost predicate LockedHop(g: Graph, a: Port, b: Port) {
    && IsTask(g, b.task) && DefinitionOf(g, b.task).UserInput?
    && b.key in LockedKeys(InputsOf(g, b.task))
    && exists i: nat :: IsLastFor(InputsOf(g, b.task), i) && InputsOf(g, b.task)[i].inputKey == b.key &&
                   InputsOf(g, b.task)[i].source == Upstream(a.task, a.key)
  }

  ghost predicate Holds(s: State, p: Port, value: Value) {
    && p.task in s.rows && s.rows[p.task].status == Completed && s.rows[p.task].executions != []
    && Get(Latest(s.rows[p.task]).outputs, p.key) == value
  }

  lemma LockedHopKeeps(g: Graph, s: State, a: Port, b: Port)
    requires Valid(g) && Inv(g, s) && LockedHop(g, a, b)
    requires b.task in s.rows && s.rows[b.task].status == Completed
    ensures s.rows[b.task].executions != []
    ensures Holds(s, a, Get(Latest(s.rows[b.task]).outputs, b.key))
  {
    var t := b.task;
    var i: nat :| IsLastFor(InputsOf(g, t), i) && InputsOf(g, t)[i].inputKey == b.key &&
             InputsOf(g, t)[i].source == Upstream(a.task, a.key);
    assert HasFreshWork(g, s.rows, t);
    assert BindingFresh(s.rows, Latest(s.rows[t]), InputsOf(g, t)[i]);
    var work := Latest(s.rows[t]);
    assert RowGenuine(g, s.seeds, t, s.rows[t]);
    assert IsGenuine(g, s.seeds, t, s.rows[t].executions[|s.rows[t].executions| - 1]);
    var context := ContextOf(g, s.seeds, t, work.inputs);
    var submitted :| Outcome(DefinitionOf(g, t), context, submitted) == Some(work.outputs);
    UserInputRun(DefinitionOf(g, t), context, submitted);
    assert LocksHold(context, work.outputs);
  }

  /** Along a chain of locked upstream bindings the value is the same at every hop. */
  lemma {:induction false} LockedChain(g: Graph, s: State, chain: seq<Port>, k: nat)
    requires Valid(g) && Inv(g, s) && k < |chain|
    requires forall i, j :: 0 <= i && j == i + 1 < |chain| ==> LockedHop(g, chain[i], chain[j])
    requires var last := chain[|chain| - 1]; last.task in s.rows && s.rows[last.task].status == Completed
    ensures s.rows[chain[|chain| - 1].task].executions != []
    ensures Holds(s, chain[k], Get(Latest(s.rows[chain[|chain| - 1].task]).outputs, chain[|chain| - 1].key))
  {
    var n := |chain|;
    assert HasFreshWork(g, s.rows, chain[n - 1].task);
    if k < n - 1 {
      LockedHopKeeps(g, s, chain[n - 2], chain[n - 1]);
      LockedChain(g, s, chain[..n - 1], k);
    }
  }
}
