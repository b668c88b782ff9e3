/** History, currency totals, summary and seed defaults against the rows. */
module Ledger {
  import opened Values
  import opened Graphs
  import opened States
  import opened Executors
  import opened ReadModels
  import opened Engine
  import opened Coherence
  import opened Invariants
  import opened Theorems

  // ----- history -----

  ghost predicate HistoryIsLog(g: Graph, log: seq<StoredEvent>, t: Id, row: Row)
    requires IsTask(g, t)
  {
    var events := CompletionsOf(log, t);
    && |row.executions| == |events| == row.currentExecution
    && (forall i :: 0 <= i < |row.executions| ==> row.executions[i].number == i + 1)
    && (forall i :: 0 <= i < |events| ==>
          var outputs := row.executions[i].outputs;
          events[i] == NodeCompleted(t, i + 1, outputs, CostOf(DefinitionOf(g, t), outputs)))
  }

  lemma RowHistory(g: Graph, rows: map<Id, Row>, log: seq<StoredEvent>, models: Reads, t: Id)
    requires models.workflow.Some? && t in rows && RowAgrees(g, rows, log, models, t)
    ensures HistoryIsLog(g, log, t, rows[t])
  {
  }

  /** Executions are numbered 1, 2, ... without gaps, and the log holds exactly one completion event for each. */
  lemma HistoryTheorem(g: Graph, s: State, t: Id)
    requires Valid(g) && Reachable(g, s) && t in s.rows
    ensures IsTask(g, t) && HistoryIsLog(g, s.log, t, s.rows[t])
  {
    ReachableInv(g, s);
    RowHistory(g, s.rows, s.log, s.models, t);
  }

  // ----- the ledger -----

  /** What each completed task contributes, read from its latest execution. */
  ghost function LedgerEntries(g: Graph, rows: map<Id, Row>): map<Id, real> {
    map t | t in rows && IsTask(g, t) && rows[t].status == Completed && rows[t].executions != []
            && CostOf(DefinitionOf(g, t), Latest(rows[t]).outputs).Some?
      :: CostOf(DefinitionOf(g, t), Latest(rows[t]).outputs).value
  }

  lemma EntriesAgree(g: Graph, s: State)
    requires Coherent(g, s) && Settled(s.rows)
    ensures Contributions(s.models.workflow.value.nodes) == LedgerEntries(g, s.rows)
  {
    var nodes := s.models.workflow.value.nodes;
    forall t
      ensures t in Contributions(nodes) <==> t in LedgerEntries(g, s.rows)
      ensures t in Contributions(nodes) ==> Contributions(nodes)[t] == LedgerEntries(g, s.rows)[t]
    {
      if t in s.rows {
        assert RowAgrees(g, s.rows, s.log, s.models, t);
      }
    }
  }

  /** Projection total and metadata mirror are the rounded sum over completed tasks, null iff none contributes. */
  lemma LedgerTheorem(g: Graph, s: State)
    requires Valid(g) && Reachable(g, s)
    ensures s.models.workflow.Some?
    ensures s.models.workflow.value.total == TotalOf(LedgerEntries(g, s.rows))
    ensures CURRENT_TOTAL in s.metadata
    ensures s.metadata[CURRENT_TOTAL] ==
            if LedgerEntries(g, s.rows) == map[] then Null else Num(Round2(Sum(LedgerEntries(g, s.rows))))
  {
    ReachableInv(g, s);
    EntriesAgree(g, s);
  }

  // ----- the execution summary -----

  datatype Item = Item(task: Id, outputKey: string, value: Value)

  datatype Summary = Summary(items: seq<Item>, total: Option<real>)

  ghost function ItemsUpTo(g: Graph, nodes: map<Id, NodeState>, rows: map<Id, Row>, k: nat): seq<Item>
    requires k <= |TaskIds(g.nodes)|
  {
    if k == 0 then []
    else
      var before, t := ItemsUpTo(g, nodes, rows, k - 1), TaskIds(g.nodes)[k - 1];
      if t !in nodes || nodes[t].status != Completed then before
      else if t !in rows || !IsTask(g, t) || DefinitionOf(g, t).output.None? then before
      else
        var key := DefinitionOf(g, t).output.value;
        before + [Item(t, key, Get(if nodes[t].outputs.Some? then nodes[t].outputs.value else map[], key))]
  }

  /** `build_execution_summary`: one item per completed task that declares an output. */
  method BuildSummary(g: Graph, workflow: Option<WorkflowState>, rows: map<Id, Row>) returns (summary: Summary)
    ensures workflow.None? ==> summary == Summary([], None)
    ensures workflow.Some? ==>
              && summary.items == ItemsUpTo(g, workflow.value.nodes, rows, |TaskIds(g.nodes)|)
              && summary.total ==
                 if workflow.value.total.Some? then Some(Round2(workflow.value.total.value)) else None
  {
    if workflow.None? {
      return Summary([], None);
    }
    var nodes, tasks := workflow.value.nodes, TaskIds(g.nodes);
    var items: seq<Item> := [];
    for k := 0 to |tasks|
      invariant items == ItemsUpTo(g, nodes, rows, k)
    {
      var t := tasks[k];
      if t !in nodes || nodes[t].status != Completed {
        continue;
      }
      if t !in rows || !IsTask(g, t) || DefinitionOf(g, t).output.None? {
        continue;
      }
      var key := DefinitionOf(g, t).output.value;
      var outputs: Record := if nodes[t].outputs.Some? then nodes[t].outputs.value else map[];
      items := items + [Item(t, key, Get(outputs, key))];
    }
    var raw := workflow.value.total;
    return Summary(items, if raw.Some? then Some(Round2(raw.value)) else None);
  }

  ghost function NumericSum(items: seq<Item>): real {
    if items == [] then 0.0
    else
      var last := items[|items| - 1].value;
      NumericSum(items[..|items| - 1]) + (if last.Num? then last.n else 0.0)
  }

  ghost function Among(entries: map<Id, real>, tasks: seq<Id>): map<Id, real> {
    map t | t in entries && t in tasks :: entries[t]
  }

  lemma AmongGrows(entries: map<Id, real>, tasks: seq<Id>, t: Id)
    requires t !in tasks
    ensures Sum(Among(entries, tasks + [t])) == Sum(Among(entries, tasks)) + (if t in entries then entries[t] else 0.0)
  {
    var more := Among(entries, tasks + [t]);
    if t in entries {
      SumSplit(more, t);
      assert more - {t} == Among(entries, tasks);
    } else {
      assert more == Among(entries, tasks);
    }
  }

  /** Projection entry and row of one task agree, and the row is at rest. */
  ghost predicate Fits(g: Graph, nodes: map<Id, NodeState>, values: map<Id, Record>, rows: map<Id, Row>, t: Id) {
    && t in rows && IsTask(g, t) && HistoryOk(rows[t]) && NodeAgrees(g, t, rows[t], nodes, values)
    && rows[t].status != Running && rows[t].status != Failed
  }

  /** One more task adds its ledger entry to the numeric items, if it has one. */
  lemma ItemStep(g: Graph, nodes: map<Id, NodeState>, values: map<Id, Record>, rows: map<Id, Row>, k: nat)
    requires k < |TaskIds(g.nodes)| && Fits(g, nodes, values, rows, TaskIds(g.nodes)[k])
    ensures var t, entries := TaskIds(g.nodes)[k], LedgerEntries(g, rows);
            NumericSum(ItemsUpTo(g, nodes, rows, k + 1))
            == NumericSum(ItemsUpTo(g, nodes, rows, k)) + (if t in entries then entries[t] else 0.0)
  {
    var before, after := ItemsUpTo(g, nodes, rows, k), ItemsUpTo(g, nodes, rows, k + 1);
    if after != before {
      assert after[..|after| - 1] == before;
    }
  }

  lemma NewTask(tasks: seq<Id>, k: nat)
    requires NoRepeats(tasks) && k < |tasks|
    ensures tasks[k] !in tasks[..k] && tasks[..k + 1] == tasks[..k] + [tasks[k]]
  {
  }

  lemma SumStep(g: Graph, nodes: map<Id, NodeState>, values: map<Id, Record>, rows: map<Id, Row>, k: nat)
    requires DistinctIds(g) && k < |TaskIds(g.nodes)| && Fits(g, nodes, values, rows, TaskIds(g.nodes)[k])
    requires NumericSum(ItemsUpTo(g, nodes, rows, k)) == Sum(Among(LedgerEntries(g, rows), TaskIds(g.nodes)[..k]))
    ensures NumericSum(ItemsUpTo(g, nodes, rows, k + 1))
         == Sum(Among(LedgerEntries(g, rows), TaskIds(g.nodes)[..k + 1]))
  {
    var tasks := TaskIds(g.nodes);
    ItemStep(g, nodes, values, rows, k);
    TasksAgree(g);
    NewTask(tasks, k);
    AmongGrows(LedgerEntries(g, rows), tasks[..k], tasks[k]);
  }

  lemma {:induction false} ItemsSum(
    g: Graph, nodes: map<Id, NodeState>, values: map<Id, Record>, rows: map<Id, Row>, k: nat)
    requires DistinctIds(g) && k <= |TaskIds(g.nodes)|
    requires forall t {:trigger Fits(g, nodes, values, rows, t)} ::
               t in TaskIds(g.nodes) ==> Fits(g, nodes, values, rows, t)
    ensures NumericSum(ItemsUpTo(g, nodes, rows, k)) == Sum(Among(LedgerEntries(g, rows), TaskIds(g.nodes)[..k]))
  {
    if k == 0 {
      assert Among(LedgerEntries(g, rows), TaskIds(g.nodes)[..0]) == map[];
    } else {
      ItemsSum(g, nodes, values, rows, k - 1);
      assert Fits(g, nodes, values, rows, TaskIds(g.nodes)[k - 1]);
      SumStep(g, nodes, values, rows, k - 1);
    }
  }

  lemma WholeSum(g: Graph, nodes: map<Id, NodeState>, values: map<Id, Record>, rows: map<Id, Row>)
    requires DistinctIds(g) && forall t :: t in rows ==> t in TaskIds(g.nodes)
    requires forall t {:trigger Fits(g, nodes, values, rows, t)} ::
               t in TaskIds(g.nodes) ==> Fits(g, nodes, values, rows, t)
    ensures NumericSum(ItemsUpTo(g, nodes, rows, |TaskIds(g.nodes)|)) == Sum(LedgerEntries(g, rows))
  {
    var entries, tasks := LedgerEntries(g, rows), TaskIds(g.nodes);
    ItemsSum(g, nodes, values, rows, |tasks|);
    assert tasks[..|tasks|] == tasks;
    assert Among(entries, tasks) == entries;
  }

  lemma AllFit(g: Graph, rows: map<Id, Row>, log: seq<StoredEvent>, models: Reads)
    requires Agreement(g, rows, log, models) && Settled(rows)
    ensures var nodes, values := models.workflow.value.nodes, models.values;
            forall t {:trigger Fits(g, nodes, values, rows, t)} ::
              t in TaskIds(g.nodes) ==> Fits(g, nodes, values, rows, t)
  {
    forall t | t in TaskIds(g.nodes)
      ensures Fits(g, models.workflow.value.nodes, models.values, rows, t)
    {
      assert RowAgrees(g, rows, log, models, t);
    }
  }

  /** The numeric line items add up to the total before rounding, and the summary total is the ledger total. */
  lemma SummaryTheorem(g: Graph, s: State, summary: Summary)
    requires Valid(g) && Inv(g, s)
    requires summary.items == ItemsUpTo(g, s.models.workflow.value.nodes, s.rows, |TaskIds(g.nodes)|)
    requires summary.total ==
             if s.models.workflow.value.total.Some? then Some(Round2(s.models.workflow.value.total.value)) else None
    ensures NumericSum(summary.items) == Sum(LedgerEntries(g, s.rows))
    ensures summary.total == TotalOf(LedgerEntries(g, s.rows))
    ensures summary.total.Some? ==> summary.total.value == Round2(NumericSum(summary.items))
  {
    AllFit(g, s.rows, s.log, s.models);
    WholeSum(g, s.models.workflow.value.nodes, s.models.values, s.rows);
    EntriesAgree(g, s);
    Round2Idempotent(Sum(LedgerEntries(g, s.rows)));
  }

  // ----- seed defaults -----

  /** One listed execution row: which task it belongs to, and the execution. */
  datatype Listed = Listed(task: Id, execution: Execution)

  /** A listing, in any order and possibly with repeats, of exactly the recorded executions. */
  ghost predicate Lists(listing: seq<Listed>, rows: map<Id, Row>) {
    && (forall x :: x in listing ==> x.task in rows && x.execution in rows[x.task].executions)
    && (forall t, e :: t in rows && e in rows[t].executions ==> Listed(t, e) in listing)
  }

  /** `_latest_completed_by_node`: keep the execution with the highest number seen so far. */
  method LatestCompletedByNode(listing: seq<Listed>) returns (latest: map<Id, Execution>)
    ensures forall t :: t in latest <==> exists x :: x in listing && x.task == t
    ensures forall t :: t in latest ==> Listed(t, latest[t]) in listing
    ensures forall x :: x in listing ==> x.task in latest && x.execution.number <= latest[x.task].number
  {
    latest := map[];
    for k := 0 to |listing|
      invariant forall t :: t in latest ==> Listed(t, latest[t]) in listing[..k]
      invariant forall x :: x in listing[..k] ==> x.task in latest && x.execution.number <= latest[x.task].number
    {
      var x := listing[k];
      assert listing[..k + 1] == listing[..k] + [x];
      if x.task !in latest || x.execution.number > latest[x.task].number {
        latest := latest[x.task := x.execution];
      }
    }
    assert listing[..|listing|] == listing;
    forall t | t in latest
      ensures exists x :: x in listing && x.task == t
    {
      assert Listed(t, latest[t]).task == t;
    }
  }

  lemma HighestIsLatest(rows: map<Id, Row>, listing: seq<Listed>, latest: map<Id, Execution>, t: Id)
    requires Lists(listing, rows) && t in rows && HistoryOk(rows[t])
    requires forall u :: u in latest ==> Listed(u, latest[u]) in listing
    requires forall x :: x in listing ==> x.task in latest && x.execution.number <= latest[x.task].number
    ensures t in latest <==> rows[t].executions != []
    ensures t in latest ==> latest[t] == Latest(rows[t])
  {
    var executions := rows[t].executions;
    assert t in latest ==> Listed(t, latest[t]).execution in executions;
    if executions != [] {
      var last := executions[|executions| - 1];
      assert last in executions;
      assert Listed(t, last) in listing;
      assert Listed(t, last).task in latest;
      assert Listed(t, latest[t]) in listing;
      var i :| 0 <= i < |executions| && executions[i] == latest[t];
      assert Listed(t, last).execution.number <= latest[t].number;
    }
  }

  /** Whatever order the rows are listed in, the memento picks the execution numbered `currentExecution`. */
  lemma SeedPicksCurrent(g: Graph, s: State, listing: seq<Listed>, latest: map<Id, Execution>, t: Id)
    requires Valid(g) && Inv(g, s) && Lists(listing, s.rows) && t in s.rows
    requires forall u :: u in latest ==> Listed(u, latest[u]) in listing
    requires forall x :: x in listing ==> x.task in latest && x.execution.number <= latest[x.task].number
    ensures t in latest <==> s.rows[t].currentExecution > 0
    ensures t in latest ==> s.rows[t].executions != []
    ensures t in latest ==> latest[t] == Latest(s.rows[t]) && latest[t].number == s.rows[t].currentExecution
  {
    assert RowAgrees(g, s.rows, s.log, s.models, t);
    HighestIsLatest(s.rows, listing, latest, t);
  }
}
