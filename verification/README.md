# Workflow engine: a verified model

This project models the event-sourced workflow engine of the repository: a directed graph of tasks that an orchestrator
runs one service call at a time, the append-only event log it writes, and the read models derived from that log. It
proves properties of every graph that passes the two publishing validators and of every finite run of calls on it.

`dafny verify dfyconfig.toml` checks everything.

## Modules

| module | content |
|---|---|
| `Values`, `States`, `Graphs` | JSON values with exact numbers, rounding and sums; transition tables; graphs, adjacency and paths |
| `GraphSearch`, `Acyclicity`, `Validation` | the searches, the two cycle checks, and the two validators of a definition |
| `Executors` | preparing, checking and completing a form or a table task |
| `ReadModels` | the event log, the projection reducer, materialised node values, and replay |
| `Engine` | the calls start, submit, pause, resume, cancel and reopen as functions on one instance's state |
| `Coherence`, `Invariants` | agreement of rows, history, log and read models; the inductive invariant `Inv`, kept by every call |
| `Spans` | conditions that calls begin, keep or end, along a run |
| `Theorems`, `Ordering`, `Projections`, `Ledger`, `Readiness`, `Reopening`, `History` | the main results about reachable states |
| `Witnesses` | concrete graphs and runs on which natural claims fail |
| `Navigation` | the next task to show |
| `AppendProtocol` | concurrent appends to one log as interleaved reads and inserts |
| `Orchestrator` | the class whose methods change fields step by step; each is proved against the function of `Engine` it implements |

The functions of `Engine` are the specification of the methods of `Orchestrator.WorkflowInstance`, and the theorems are
about those functions. `Orchestrator.WorkflowInstance.Serve` ties the two together: any call is one step of the engine
and keeps the invariant. A failed call is rolled back by the session (`app/core/database.py:28-36`), so it leaves the
state as it was.

Conventions. Node ids are abstract values with equality, and a task row is identified with its graph node, of which an
instance has exactly one row each. Numbers are exact reals and rounding to cents sends ties to the even cent. The form
rules and the reading of numbers from text are arbitrary functions carried by a definition, so every theorem holds for
any choice of them. A pinned definition is stored inside its graph node. A reachable state is one that some start
followed by some finite sequence of calls, accepted or rejected, leads to.

## Findings

Where code and documentation differ, or a natural claim fails, the model follows the code and a lemma says exactly when
the claim holds.

- The validators accept an edge out of an end node. Then a task can be pending although a task before it is not
  completed, because readiness looks only at direct predecessors (`Witnesses.DetourBreaksReadiness`). Where executors
  accept, a task waits for an ancestor exactly when some path between the two visits only tasks
  (`Readiness.ReadinessOfPair`, and for a whole graph `Readiness.ReadinessExactly`); that such a path is enough needs
  nothing of the executors (`Readiness.UpstreamReadiness`).
- Invalidating what follows a task of a completed instance, without reopening the task itself, leaves the instance
  running with all tasks completed if nothing follows it (`Witnesses.ForkEndsInLimbo`). No other call leads there, and
  only pausing and sparing another such task stay there (`Theorems.LimboExactly`, along whole runs
  `Theorems.LimboAlongRun`). Resuming repairs it (`Theorems.LimboRecovers`). `docs/DEVELOPER_GUIDE.md:429` describes
  the same recovery for a race between two submits.
- Reopening a completed instance appends no workflow event, so the projected workflow status still says completed
  (`Witnesses.ForkEndsInLimbo`). `Projections.StatusDivergesExactly` says, from the state before a call, whether the two
  differ after it, and `Projections.DivergesAlongRun` for how long.
- Reopening a completed task makes its row pending but reports it as invalidated, so the projection shows a pending task
  as invalidated (`Witnesses.ForkFallsBehind`). `Projections.BehindExactly` says after which calls, and
  `Projections.BehindAlongRun` for how long; every other status is shown as stored (`Projections.ProjectionTheorem`).
- A submit moves the revision only when it completes the workflow (`Witnesses.ForkEndsInLimbo` has one that does not).
  `History.RevisionExactly` gives the amount for every call from the state before it.
- The depth-first cycle check leaves its stack dirty after a cycle and reports nodes that only lead into one. All the
  same its result is exact: the nodes on a cycle or before one (`Acyclicity.FindCycleNodes`).
- A table task whose aggregate is stored under the key of a locked column can reject its own outputs
  (`Executors.RerunCanFail`). `Executors.TableRerun` gives the exact condition under which it reproduces them.

## Model

| member | source | states |
|---|---|---|
| `Graphs.BuildAdjacency` | app/domain/graph/workflow_graph.py:112-132 | one pass over the edges yields, for every node id, its targets and its sources in edge order |
| `Graphs.AdjacencyExact` | app/domain/graph/workflow_graph.py:168-172 | both adjacency lists hold an edge exactly as often as the edge list does |
| `GraphSearch.DownstreamTaskNodes` | app/domain/graph/workflow_graph.py:174-190 | lists without repeats exactly the tasks reachable by a non-empty path, in search order, or raises a key error exactly when some reachable id is no node |
| `GraphSearch.DownstreamTasksExact` | app/domain/graph/workflow_graph.py:174-190 | the search order function meets no node twice and misses no reachable task |
| `GraphSearch.ReachableFrom` | app/domain/validation/graph.py:109-120 | the visited set is the start and everything some path from it leads to |
| `GraphSearch.Ancestors` | app/domain/validation/input_wiring.py:13-30 | the entry of a node is exactly the set of nodes with a non-empty path to it |
| `GraphSearch.Duality` | app/domain/validation/input_wiring.py:13-30 | a task is downstream of a node exactly when the node is among the task's ancestors |
| `GraphSearch.Walk` | app/domain/graph/workflow_graph.py:200-215 | the outcome and the shared visited set of the depth-first order; when nothing is found every newly seen node is exhausted |
| `GraphSearch.NextPendingTaskFrom` | app/domain/graph/workflow_graph.py:192-217 | the first pending task in depth-first order, led to through non-tasks; nothing only if no pending task and no missing id is led to, on cyclic graphs too |
| `Acyclicity.CycleFinder.Visit` | app/domain/validation/graph.py:128-143 | finished nodes are closed under edges and lie on no cycle, and whatever a visit leaves on the stack is recorded and leads into a cycle |
| `Acyclicity.FindCycleNodes` | app/domain/validation/graph.py:123-149 | reports exactly the nodes that lie on a cycle or lead into one, hence none exactly on acyclic graphs |
| `Acyclicity.TopologicalOrder` | app/domain/graph/workflow_graph.py:219-235 | succeeds exactly on distinct ids, whole edges and no cycle; the order is a permutation of the nodes with every edge forward |
| `Acyclicity.OrderMeansAcyclic` | app/domain/graph/workflow_graph.py:219-235 | a forward order exists only on acyclic graphs |
| `Acyclicity.MinimumExists` | app/domain/graph/workflow_graph.py:220-221 | in an acyclic graph every non-empty set of nodes has one without a predecessor in the set |
| `Validation.ValidateGraphTopology` | app/domain/validation/graph.py:7-106 | no issue exactly when there is one start, an end, no dangling edge, no cycle, and every node is reachable |
| `Validation.CheckSource` | app/domain/validation/input_wiring.py:74-198 | the source of a binding is accepted exactly when it is an allowed key or a declared output of an ancestor task |
| `Validation.ValidateInputWiring` | app/domain/validation/input_wiring.py:37-200 | no issue exactly when every binding of every task is accepted |
| `Validation.AcceptedIsPublished` | app/domain/validation/graph.py:7-106 | on distinct ids the two validators together give everything the engine's theorems assume |
| `Validation.PublishedOrder` | app/domain/graph/workflow_graph.py:219-235 | any topological order of a published graph begins with its start node |
| `Values.Round2Idempotent` | app/application/events/handlers/workflow_state.py:121-122 | rounding a rounded total again changes nothing |
| `Values.SumSplit` | app/application/events/handlers/workflow_state.py:109-122 | a total does not depend on the order in which contributions are added |
| `Executors.Prepare` | app/domain/executors/base.py:16-28 | resolved inputs win over seeds, restricted to the form's fields where there are any |
| `Executors.ValidateLockedInputs` | app/domain/executors/base.py:56-75 | no error exactly when every resolved locked input comes back unchanged |
| `Executors.ComputeAggregation` | app/domain/definitions/table_fields.py:54-74 | the loop over the rows computes the aggregate of one column |
| `Executors.AggregatesMean` | app/domain/definitions/table_fields.py:63-74 | min and max are attained bounds, and avg times the number of values is sum |
| `Executors.BuildTableTaskOutputs` | app/domain/definitions/table_fields.py:77-94 | header, rows, and every computable aggregation, later ones overwriting earlier ones |
| `Executors.AggregatesDecide` | app/domain/definitions/table_fields.py:77-94 | under each id stands the last computable aggregation with that id, and otherwise what stood there before |
| `Executors.ValidateLockedRowsAndColumns` | app/domain/executors/table_input.py:216-257 | no error exactly when locked rows and every cell of a locked column are unchanged, with anything but a list counting as no rows |
| `Executors.Run` | app/domain/executors/base.py:83-91 | the outcome of merging, stripping, checking and completing a submission, or a rejection |
| `Executors.UserInputRun` | app/domain/executors/user_input.py:22-64 | an accepted form keeps every locked input, has a numeric declared output, no internal key, and resubmitting it reproduces it |
| `Executors.TableRun` | app/domain/executors/table_input.py:80-180 | an accepted table keeps locked rows, columns and header fields, except where an aggregation is stored under the same key, and every aggregate is a function of its rows alone |
| `Executors.TableRerun` | app/domain/executors/table_input.py:80-180 | running a finished table again on its own outputs reproduces them exactly when no aggregation is stored as the rows, the header is accepted with the aggregates stored in it, and no locked input disagrees with an aggregate of the same id |
| `Executors.TableRerunApart` | app/domain/executors/table_input.py:80-180 | where aggregation ids clash with no header field, `rows` or bound input, running again always reproduces the outputs |
| `Executors.RerunCanFail` | app/domain/executors/table_input.py:80-180 | a concrete accepted table whose outputs are rejected when they are submitted again |
| `ReadModels.RecomputeTotal` | app/application/events/handlers/workflow_state.py:109-122 | in whatever order the entries are visited: the rounded sum over completed contributors, none if there is none |
| `ReadModels.ApplyEvent` | app/application/events/handlers/workflow_state.py:20-106 | the patched copy carries the rounded total of its own nodes after a completion or an invalidation, and the old total otherwise |
| `ReadModels.NumberedNext` | app/infrastructure/db/repositories/events.py:12-18 | on a log numbered 1 to n the next sequence number is n + 1 |
| `Coherence.AppendNumbered` | app/application/events/event_store.py:25-58 | appending keeps the numbering and keeps the read models equal to the replay of the whole log |
| `Coherence.TouchCoherent` | app/application/events/handlers/workflow_state.py:20-106 | a row update followed by an event that agrees with it on that one task keeps rows, history, log and read models in agreement for every task |
| `Coherence.InvalidateAllExact` | app/application/executions/orchestrator.py:628-651 | invalidation changes exactly the listed rows that are pending, running or completed, and logs exactly when it changes one |
| `Invariants.StepInv` | app/application/executions/orchestrator.py:147-653 | every call, accepted or rejected, keeps the whole invariant |
| `Invariants.StartInv` | app/application/executions/orchestrator.py:118-134 | a started instance satisfies the invariant |
| `Invariants.RunInv` | app/application/executions/orchestrator.py:118-653 | the invariant holds at every point of every run, whatever calls it makes |
| `Invariants.RunExists` | app/application/executions/orchestrator.py:118-653 | every sequence of calls after every start has a run |
| `Invariants.AdvanceExact` | app/application/executions/orchestrator.py:480-525 | one pass promotes exactly the ready rows and completes the instance exactly when all tasks are completed |
| `Invariants.AdvanceReachesFrontier` | app/application/executions/orchestrator.py:480-508 | from any settled, predecessor-closed state one pass makes pending or completed the same as ready |
| `Invariants.BindingReadsLatest` | app/infrastructure/executions/projection_reader.py:15-35 | an upstream binding that resolves yields the latest recorded output of a completed source |
| `Invariants.UnwoundExact` | app/application/executions/orchestrator.py:552-583 | taking back a task changes it and its reachable rows as prescribed, no other row, and logs exactly when a row changes |
| `Invariants.FreshShrinks` | app/application/executions/orchestrator.py:554-594 | losing completed tasks keeps the rest fresh as long as whatever rests on a lost one is lost too |
| `Theorems.FrontierTheorem` | app/application/executions/orchestrator.py:480-508 | in every reachable state completed tasks are predecessor-closed, pending is exactly the frontier, and no row is running or failed |
| `Theorems.NoDeadlock` | app/application/executions/scheduler.py:13-36 | an instance with an uncompleted task has a pending one |
| `Theorems.AdvanceIdempotent` | app/application/executions/orchestrator.py:480-525 | on any running instance a second pass changes and appends nothing, and one pass completes it exactly when all tasks are completed |
| `Theorems.AdvanceEvents` | app/application/executions/orchestrator.py:490-508 | one NODE_READY for each ready task, each once, in definition order, and nothing else |
| `Theorems.SubmitExact` | app/application/executions/orchestrator.py:147-248 | an accepted submit records one more execution, promotes the newly ready tasks, and completes exactly when all other tasks were completed before it |
| `Theorems.LimboExactly` | app/application/executions/orchestrator.py:585-594 | from the state before a call: whether the instance is unfinished with all tasks completed after it |
| `Theorems.LimboAlongRun` | app/application/executions/orchestrator.py:585-594 | at every point of every run: in that state exactly after a call that leads there and until an accepted call that ends it |
| `Theorems.LimboRecovers` | app/application/executions/orchestrator.py:260-270 | resuming such an instance completes it |
| `Theorems.HonestCompletion` | app/application/executions/orchestrator.py:510-525 | completed means all tasks completed, conversely on every run without an accepted sparing reopen of a completed instance, and an iff for where the converse fails |
| `Theorems.NoStaleWork` | app/application/executions/orchestrator.py:188-244 | in every reachable state the recorded upstream input of a completed task is the current output of its source |
| `Theorems.LockedHopKeeps` | app/domain/executors/user_input.py:22-31 | a locked upstream value leaves a completed form task as its source currently holds it |
| `Theorems.LockedChain` | app/domain/executors/base.py:56-91 | along any chain of locked upstream bindings the value is identical at every hop |
| `Spans.SinceExactly` | app/application/executions/orchestrator.py:147-653 | a condition that every call begins, keeps or ends holds exactly since the last call that began it |
| `Ordering.SubmitSucceedsIff` | app/application/executions/orchestrator.py:157-179 | with accepting executors a submit succeeds exactly when the task is new and all its direct task predecessors are done |
| `Ordering.LinearExtensions` | app/application/executions/scheduler.py:13-31 | from a fresh start submits all succeed exactly when they are a prefix of a topological ordering of the tasks |
| `Ordering.CompletesWithLastTask` | app/application/executions/orchestrator.py:510-525 | the workflow completes after exactly as many accepted submits as there are tasks |
| `Projections.ProjectionTheorem` | app/application/events/handlers/workflow_state.py:20-106 | at every point of every run the read models are the replay of the log and show each status as stored, except exactly since a completed task or a completed instance was reopened |
| `Projections.BehindExactly` | app/application/executions/orchestrator.py:558-570 | from the state before a call: whether a task is pending but shown as invalidated after it |
| `Projections.BehindAlongRun` | app/application/executions/orchestrator.py:558-570 | along a run that lag lasts exactly from a reopening of the completed task until it is submitted or taken back |
| `Ledger.HistoryTheorem` | app/infrastructure/db/repositories/instances.py:138-161 | executions are numbered 1 to the current one without gap and match the completion events one to one |
| `Projections.StatusDivergesExactly` | app/application/executions/orchestrator.py:585-588 | from the state before a call: whether the projected workflow status differs from the stored one after it |
| `Projections.DivergesAlongRun` | app/application/executions/orchestrator.py:585-588 | along a run they differ exactly from a reopening of a completed instance until the next workflow event |
| `Ledger.LedgerTheorem` | app/application/executions/orchestrator.py:467-478 | projected total and metadata mirror are the rounded sum over completed tasks' latest outputs, null exactly when none contributes |
| `Ledger.BuildSummary` | app/application/executions/summary.py:40-95 | one item per completed task with a declared output, in definition order, and the rounded total |
| `Ledger.SummaryTheorem` | app/application/executions/summary.py:40-95 | the numeric items add up to the ledger before rounding, and the summary total is the ledger total |
| `Ledger.LatestCompletedByNode` | app/application/executions/seed_memento.py:103-118 | picks for each task a listed execution with the highest number |
| `Ledger.SeedPicksCurrent` | app/application/executions/seed_memento.py:103-118 | whatever the listing order, that execution is the one numbered by the row's current execution |
| `Reopening.ReopenExact` | app/application/executions/orchestrator.py:527-596 | reopening a completed task takes back precisely it and what follows it, and changes no other row and no history |
| `Reopening.ReopenIdleExactly` | app/application/executions/orchestrator.py:577-594 | on a running instance a reopen changes nothing exactly when no row is affected |
| `Reopening.ReopenUnfinishedIsIdle` | app/application/executions/orchestrator.py:571-594 | reopening a task that is not completed changes nothing where the tasks after it are linked to it by tasks |
| `Reopening.NothingToTakeBackExactly` | app/application/executions/orchestrator.py:628-651 | along every accepting run an uncompleted task has nothing to take back exactly where the tasks after it are linked to it by tasks |
| `Readiness.UpstreamReadiness` | app/application/executions/scheduler.py:13-18 | every ancestor on a tasks-only path to a pending or completed task is completed |
| `Readiness.ReadinessOfPair` | app/application/executions/scheduler.py:13-18 | along every accepting run a task always waits for an ancestor exactly when some path between them visits only tasks |
| `Readiness.ReadinessExactly` | app/application/executions/scheduler.py:13-18 | along every accepting run readiness reaches all ancestor tasks exactly on graphs whose tasks are linked by tasks |
| `Readiness.EndsTerminalLinks` | app/domain/validation/graph.py:42-104 | a published graph whose end nodes have no successors has all its tasks linked |
| `Readiness.OpenFormsWilling` | app/domain/executors/base.py:83-91 | graphs of forms that accept anything meet the assumption on executors |
| `Readiness.PendingBindingsResolve` | app/application/executions/upstream_resolver.py:15-35 | an upstream binding of a pending task reads its linked source's latest outputs and fails only on an absent key |
| `Witnesses.DetourBreaksReadiness` | app/application/executions/scheduler.py:13-18 | a published graph with an edge out of its end node, on which a task starts pending before its ancestor |
| `Witnesses.ForkEndsInLimbo` | app/application/executions/orchestrator.py:585-594 | a run of three accepted calls on a published graph whose first submit leaves the revision alone and which ends with all tasks completed, the instance running and the projection completed |
| `Witnesses.ForkFallsBehind` | app/application/executions/orchestrator.py:558-570 | a run of two accepted calls on the same graph after which a pending task is shown as invalidated |
| `History.LogAppendOnly` | app/application/events/event_store.py:25-58 | no call ever rewrites or drops an event |
| `History.HistoryConserved` | app/infrastructure/db/repositories/instances.py:138-161 | an accepted submit adds one execution to its own task; no other call changes any history |
| `History.RevisionExactly` | app/infrastructure/db/repositories/instances.py:163-195 | a stated revision must be current, and from the state before the call, how far each accepted call moves the counter |
| `Navigation.AnchorNodeId` | app/application/executions/orchestrator.py:348-359 | the start before anything is completed, otherwise the completed task that comes last in a topological order |
| `Navigation.NothingCompletedAfter` | app/application/executions/orchestrator.py:348-359 | no path leads from the anchor to a completed task |
| `Navigation.ResolveNextTaskId` | app/application/executions/orchestrator.py:336-346 | the first pending task that a depth-first walk from the given task or the anchor meets, and none only if no pending task is led to |
| `AppendProtocol.SuccessKeeps` | app/infrastructure/db/repositories/events.py:48-52 | an insert that succeeds holds exactly the next number, however old its read is |
| `AppendProtocol.BehaviourInv` | app/infrastructure/db/repositories/events.py:12-59 | whatever steps the callers interleave, the log stays gapless and no caller ever holds a number above the next one |
| `AppendProtocol.AlwaysGapless` | app/infrastructure/db/repositories/events.py:12-59 | in every interleaving the stored numbers are 1 to n without gap or repeat |
| `AppendProtocol.EveryCaller` | app/infrastructure/db/repositories/events.py:31-59 | tries are at most three and strictly increasing, the successful one included, and a caller that gives up saw three inserts by others |
| `AppendProtocol.OwnedOnce` | app/infrastructure/db/models/events.py:18-21 | every stored number belongs to exactly one caller |
| `Orchestrator.WorkflowInstance.constructor` | app/application/executions/orchestrator.py:118-134 | starting an instance yields the engine's start state |
| `Orchestrator.WorkflowInstance.HandleWorkflowProjection` | app/application/events/handlers/workflow_projection.py:36-43 | reads, reduces and writes back, from the initial state if there is none |
| `Orchestrator.WorkflowInstance.HandleNodeProjection` | app/application/events/handlers/node_projection.py:22-32 | completion stores the outputs, invalidation empties an existing row, anything else is ignored |
| `Orchestrator.WorkflowInstance.AppendEvent` | app/application/events/event_store.py:25-58 | the event gets the next number, is stored, and reaches both read models |
| `Orchestrator.WorkflowInstance.Rebuild` | app/application/events/rebuilder.py:23-28 | from any contents: the replay of the log, and no change at all where the read models already were that |
| `Orchestrator.WorkflowInstance.UpdateNodeStatus` | app/infrastructure/db/repositories/instances.py:128-136 | changes one status exactly when the transition table allows it |
| `Orchestrator.WorkflowInstance.CreateNodeExecution` | app/infrastructure/db/repositories/instances.py:138-161 | appends the execution with the next number to its own row and changes no other |
| `Orchestrator.WorkflowInstance.UpdateWorkflowStatus` | app/infrastructure/db/repositories/instances.py:163-180 | sets the status and moves the revision by one |
| `Orchestrator.WorkflowInstance.SyncCurrentTotal` | app/application/executions/orchestrator.py:467-478 | the metadata mirror becomes the rounded projected total, or null |
| `Orchestrator.WorkflowInstance.PredecessorsSatisfied` | app/application/executions/scheduler.py:13-18 | true exactly when every direct predecessor that is a task is completed |
| `Orchestrator.WorkflowInstance.ReadyTaskNodes` | app/application/executions/scheduler.py:20-31 | the waiting or invalidated tasks whose predecessors are satisfied, in definition order |
| `Orchestrator.WorkflowInstance.AllTasksCompleted` | app/application/executions/scheduler.py:33-36 | true exactly when every task row is completed |
| `Orchestrator.WorkflowInstance.AdvanceInstance` | app/application/executions/orchestrator.py:480-525 | one scheduler pass of the engine |
| `Orchestrator.WorkflowInstance.BindInputs` | app/application/executions/input_binder.py:24-59 | later bindings of a key win, the first unresolvable one aborts, and any locked binding locks its key |
| `Orchestrator.WorkflowInstance.SubmitNodeOutputs` | app/application/executions/orchestrator.py:147-248 | one submit step of the engine, with the same error in the same order of checks, and no change on error |
| `Orchestrator.WorkflowInstance.ChangeWorkflowStatus` | app/application/executions/orchestrator.py:430-465 | status, revision and event, or the error of the first failing check and no change |
| `Orchestrator.WorkflowInstance.PauseWorkflow` | app/application/executions/orchestrator.py:250-258 | the engine's pause step |
| `Orchestrator.WorkflowInstance.ResumeWorkflow` | app/application/executions/orchestrator.py:260-270 | the engine's resume step, including the scheduler pass |
| `Orchestrator.WorkflowInstance.CancelWorkflow` | app/application/executions/orchestrator.py:272-285 | the engine's cancel step, keeping a given reason in the metadata |
| `Orchestrator.WorkflowInstance.InvalidateDownstreamNodes` | app/application/executions/orchestrator.py:612-653 | invalidates the downstream tasks in search order, one event for each changed row |
| `Orchestrator.WorkflowInstance.ReopenFromTask` | app/application/executions/orchestrator.py:527-596 | one reopen step of the engine, with the same error in the same order of checks, and no change on error |
| `Orchestrator.WorkflowInstance.Serve` | app/application/executions/orchestrator.py:147-653 | any call is one step of the engine and keeps the invariant |

## Left out

- WorkflowInstance.AppendEvent: assumes that no other transaction writes the same instance. Concurrent appends are
  modelled in `AppendProtocol` only, with each insert taking effect at once and never undone, so the lost updates of the
  projection under concurrent writers are not modelled.
- WorkflowInstance.constructor: takes a graph with distinct node ids and no dangling edge, as publishing guarantees once
  ids are distinct; the validators do not check that they are.
- Routers, request schemas, error mapping, logging and health checks: plumbing.
- Backups and the Excel export: files, subprocesses and a library.
- SQL, migrations and sessions: tables are maps and sequences, and a failed call changes nothing.
- The hash chain of the event store: hashes are not recomputed when an append is retried.
- The workflow snapshot: the graph of an instance never changes after its start.
- The handler registry as a table of handlers: the two projection handlers are called in the order they are registered.
- The config table executor: it follows the table executor without the row-level lock check.
- Form field rules, cross-field constraints and reading numbers from text: arbitrary functions of a definition.
- Floating point: sums and averages are exact, and infinities and NaN do not occur.
- Equality of `True` with `1`: a boolean and a number are never equal here.
- Node failure: the orchestrator never emits it, so only the reducer has it; its error message is dropped.
- Timestamps, authors, names, labels, instance ids of rows, and definition ids in the projection: carried along unchanged.
- The payload of status events and the upstream node id of an invalidation: no code of the engine reads them.
- Trimming of white space around metadata keys and cancel reasons: keys and reasons are given trimmed, and an absent
  reason is an empty one.
- Missing pinned versions and unknown executor kinds: every task node carries its definition.
- Which outputs count as static seed defaults, and the compatibility check of a seed source: `Ledger` stops at the
  execution that is picked.
- Preparing pending forms and the prefetched reader: the same lookup as for a submit, without a change of state.
- The returned lists of affected rows, and listings of instances.
