/** Reopening a task takes back exactly what rests on it. */
module Reopening {
  import opened Values
  import opened Graphs
  import opened States
  import opened Engine
  import opened Invariants
  import opened Projections
  import opened Readiness

  // ----- exactness -----

  /** From `rows` to `next`, the target and what comes after it are taken back, and no other row changes. */
  ghost predicate TakesBack(g: Graph, rows: map<Id, Row>, next: map<Id, Row>, t: Id, reopenTarget: bool) {
    && next.Keys == rows.Keys && t in rows
    && (forall u :: u in rows ==>
          (next[u].status == Completed <==>
           rows[u].status == Completed && !(u == t && reopenTarget) && !Reaches(g.edges, t, u)))
    && (forall u :: u in rows && !(u == t && reopenTarget) && !Reaches(g.edges, t, u) ==> next[u] == rows[u])
    && (forall u :: u in rows ==>
          next[u].executions == rows[u].executions && next[u].currentExecution == rows[u].currentExecution)
    && (reopenTarget ==> next[t].status == Pending)
  }

  lemma PromotedTakesBack(
    g: Graph, rows: map<Id, Row>, unwound: map<Id, Row>, next: map<Id, Row>, t: Id, reopenTarget: bool)
    requires Acyclic(g.edges) && AtFrontier(g, rows) && unwound.Keys == rows.Keys == next.Keys
    requires t in rows && rows[t].status == Completed
    requires forall u :: u in rows ==> unwound[u] == UnwoundRow(g, rows, t, reopenTarget, u)
    requires forall u :: u in rows ==> next[u] == Promoted(g, unwound, u)
    ensures TakesBack(g, rows, next, t, reopenTarget)
  {
    forall u | u in rows && !(u == t && reopenTarget) && !Reaches(g.edges, t, u)
      ensures next[u] == rows[u]
    {
      assert next[u] == Promoted(g, unwound, u) && unwound[u] == rows[u];
      if Ready(g, unwound, u) {
        assert DirectReady(g, rows, u);
      }
    }
  }

  /** The affecting case: unwind, then one scheduler pass that cannot complete the instance. */
  lemma ReopenAdvances(g: Graph, s: State, t: Id, expected: Option<int>, reason: string, reopenTarget: bool)
    requires Valid(g) && Inv(g, s) && ReopenRefusal(g, s, t, expected, reopenTarget).None? && t in s.rows
    requires AffectsSome(g, s.rows, t, reopenTarget)
    ensures var next := ReopenStep(g, s, t, expected, reason, reopenTarget).value;
            var reworked := Reworked(g, s, t, reason, reopenTarget);
            && reworked.rows.Keys == s.rows.Keys == next.rows.Keys
            && (forall u :: u in s.rows ==> reworked.rows[u] == UnwoundRow(g, s.rows, t, reopenTarget, u))
            && (forall u :: u in s.rows ==> next.rows[u] == Promoted(g, reworked.rows, u))
            && next.status == WfRunning && next.revision == s.revision + 1
  {
    AffectedByLog(g, s, t, reason, reopenTarget);
    ReopenIs(g, s, t, expected, reason, reopenTarget);
    ReworkedExact(g, s, t, reason, reopenTarget);
    var reworked := Reworked(g, s, t, reason, reopenTarget);
    UnwoundNotDone(g, s.rows, reworked.rows, t, reopenTarget);
    AdvanceExact(g, reworked);
  }

  /** Reopening a completed task: the set of completed tasks, the history, the revision, and what stays untouched. */
  lemma ReopenExact(g: Graph, s: State, t: Id, expected: Option<int>, reason: string, reopenTarget: bool)
    requires Valid(g) && Inv(g, s) && ReopenRefusal(g, s, t, expected, reopenTarget).None?
    requires t in s.rows && s.rows[t].status == Completed
    ensures var next := ReopenStep(g, s, t, expected, reason, reopenTarget).value;
            && TakesBack(g, s.rows, next.rows, t, reopenTarget)
            && next.status == WfRunning
            && next.revision ==
               s.revision + (if s.status == WfCompleted || AffectsSome(g, s.rows, t, reopenTarget) then 1 else 0)
  {
    var next := ReopenStep(g, s, t, expected, reason, reopenTarget).value;
    if AffectsSome(g, s.rows, t, reopenTarget) {
      ReopenAdvances(g, s, t, expected, reason, reopenTarget);
      PromotedTakesBack(g, s.rows, Reworked(g, s, t, reason, reopenTarget).rows, next.rows, t, reopenTarget);
    } else {
      ReopenUnaffected(g, s, t, expected, reason, reopenTarget);
    }
  }

  /** A reopen call on a running instance changes nothing at all exactly when no row is affected. */
  lemma ReopenIdleExactly(g: Graph, s: State, t: Id, expected: Option<int>, reason: string, reopenTarget: bool)
    requires Valid(g) && Inv(g, s) && s.status == WfRunning
    requires ReopenRefusal(g, s, t, expected, reopenTarget).None?
    ensures ReopenStep(g, s, t, expected, reason, reopenTarget).value == s <==> !AffectsSome(g, s.rows, t, reopenTarget)
  {
    if AffectsSome(g, s.rows, t, reopenTarget) {
      ReopenAdvances(g, s, t, expected, reason, reopenTarget);
    } else {
      ReopenUnaffected(g, s, t, expected, reason, reopenTarget);
    }
  }

  /** Reopening a task that is not completed is a no-op where the tasks after it are linked to it by tasks. */
  lemma ReopenUnfinishedIsIdle(
    g: Graph, s: State, t: Id, expected: Option<int>, reason: string, reopenTarget: bool)
    requires Valid(g) && Inv(g, s) && t in s.rows && s.rows[t].status != Completed
    requires forall u :: IsTask(g, u) && Reaches(g.edges, t, u) ==> Linked(g, t, u)
    requires ReopenRefusal(g, s, t, expected, reopenTarget).None?
    ensures ReopenStep(g, s, t, expected, reason, reopenTarget).value == s
  {
    TasksAgree(g);
    forall u | u in s.rows && Reaches(g.edges, t, u)
      ensures !Invalidatable(s.rows[u])
    {
      if Reached(s.rows[u]) {
        UpstreamReadiness(g, s, t, u);
      }
    }
    assert s.status == WfRunning;
    ReopenIdleExactly(g, s, t, expected, reason, reopenTarget);
  }

  /** As long as `t` is not completed, no task after it can be taken back. */
  ghost predicate NothingToTakeBack(g: Graph, first: State, t: Id) {
    forall s {:trigger RunsTo(g, first, s)} ::
      RunsTo(g, first, s) && t in s.rows && s.rows[t].status != Completed ==> !AffectsSome(g, s.rows, t, false)
  }

  /** That holds along every run from a start exactly where the tasks after `t` are linked to it by tasks. */
  lemma NothingToTakeBackExactly(g: Graph, first: State, t: Id)
    requires Valid(g) && IsStart(g, first) && IsTask(g, t)
    requires forall u :: IsTask(g, u) && Reaches(g.edges, t, u) ==> WillingBefore(g, first, u)
    ensures NothingToTakeBack(g, first, t) <==> forall u :: IsTask(g, u) && Reaches(g.edges, t, u) ==> Linked(g, t, u)
  {
    TasksAgree(g);
    if NothingToTakeBack(g, first, t) {
      forall u | IsTask(g, u) && Reaches(g.edges, t, u)
        ensures Linked(g, t, u)
      {
        forall s | RunsTo(g, first, s)
          ensures Awaits(s.rows, t, u)
        {
          RunsToInv(g, first, s);
          assert t in s.rows && u in s.rows;
        }
        ReadinessOfPair(g, first, t, u);
      }
    } else {
      var s :| RunsTo(g, first, s) && t in s.rows && s.rows[t].status != Completed && AffectsSome(g, s.rows, t, false);
      var u :| u in s.rows && Reaches(g.edges, t, u) && Invalidatable(s.rows[u]);
      RunsToInv(g, first, s);
      if Linked(g, t, u) {
        UpstreamReadiness(g, s, t, u);
      }
    }
  }
}
