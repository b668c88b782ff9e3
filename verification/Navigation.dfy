/** Which task to show next: an anchor node and the first pending task after it. */
module Navigation {
  import opened Values
  import opened Graphs
  import opened GraphSearch
  import opened Acyclicity
  import opened States
  import opened Engine
  import opened Readiness

  ghost predicate IsCompleted(rows: map<Id, Row>, t: Id) {
    t in rows && rows[t].status == Completed
  }

  /** The start while nothing is completed, and otherwise the completed task that comes last in `order`. */
  ghost predicate IsAnchor(start: Id, order: seq<Id>, rows: map<Id, Row>, anchor: Id) {
    if forall t :: !IsCompleted(rows, t) then anchor == start
    else
      && IsCompleted(rows, anchor)
      && exists k :: 0 <= k < |order| && order[k] == anchor
                     && forall j :: k < j < |order| ==> !IsCompleted(rows, order[j])
  }

  /** `_anchor_node_id`: the maximum over a topological order of the graph. */
  method AnchorNodeId(g: Graph, start: Id, rows: map<Id, Row>) returns (anchor: Id)
    requires Published(g, start) && forall t :: t in rows ==> IsTask(g, t)
    ensures exists order :: IsTopologicalOrder(g, order) && IsAnchor(start, order, rows, anchor)
  {
    LiveOnWellFormed(g);
    var result := TopologicalOrder(g);
    var order := result.value;
    anchor := start;
    ghost var latest := -1;
    for k := 0 to |order|
      invariant -1 <= latest < k
      invariant latest == -1 ==> anchor == start
      invariant latest >= 0 ==> anchor == order[latest] && IsCompleted(rows, anchor)
      invariant forall i :: latest < i < k ==> !IsCompleted(rows, order[i])
    {
      if order[k] in rows && rows[order[k]].status == Completed {
        anchor, latest := order[k], k;
      }
    }
    forall t | IsCompleted(rows, t)
      ensures t in order
    {
      NodeIdsAgree(g, t);
    }
    assert IsTopologicalOrder(g, order) && IsAnchor(start, order, rows, anchor);
  }

  /** No completed task comes after the anchor on any path. */
  lemma NothingCompletedAfter(g: Graph, start: Id, order: seq<Id>, rows: map<Id, Row>, anchor: Id, t: Id)
    requires WellFormed(g) && IsTopologicalOrder(g, order) && IsAnchor(start, order, rows, anchor)
    requires IsCompleted(rows, t) && t in NodeIds(g)
    ensures !Reaches(g.edges, anchor, t)
  {
    var k :| 0 <= k < |order| && order[k] == anchor && forall j :: k < j < |order| ==> !IsCompleted(rows, order[j]);
    var j :| 0 <= j < |order| && order[j] == t;
    if Reaches(g.edges, anchor, t) {
      ReachesMeansLater(g, order, k, j);
    }
  }

  /** Along a topological order a path can only lead forward. */
  lemma ReachesMeansLater(g: Graph, order: seq<Id>, i: nat, j: nat)
    requires WellFormed(g) && IsTopologicalOrder(g, order) && i < |order| && j < |order|
    requires Reaches(g.edges, order[i], order[j])
    ensures i < j
  {
    var p :| PathBetween(g.edges, p, order[i], order[j]);
    var at, k := i, 0;
    while k < |p| - 1
      invariant 0 <= k < |p| && i <= at < |order| && order[at] == p[k] && (k > 0 ==> i < at)
    {
      assert Edge(p[k], p[k + 1]) in g.edges;
      assert Edge(p[k], p[k + 1]).target in NodeIds(g);
      var next :| 0 <= next < |order| && order[next] == p[k + 1];
      at, k := next, k + 1;
    }
  }

  function PendingTasks(rows: map<Id, Row>): set<Id> {
    set t | t in rows && rows[t].status == Pending
  }

  /**
   * `next` is the pending task that a depth-first walk from `source` meets first; it is led to from there, and there
   * is none only if no pending task is led to.
   */
  ghost predicate IsNextAfter(g: Graph, rows: map<Id, Row>, source: Id, next: Option<Id>) {
    match next
    case Some(t) =>
      WalkFrom(g, PendingTasks(rows), source, 0, {}).0 == Found(t) && t in PendingTasks(rows) && Leads(g, source, t)
    case None => forall t :: t in PendingTasks(rows) ==> !Leads(g, source, t)
  }

  /** `_resolve_next_task_id`: the search starts at the given task, or else at the anchor. */
  method ResolveNextTaskId(g: Graph, start: Id, rows: map<Id, Row>, after: Option<Id>) returns (next: Option<Id>)
    requires Published(g, start) && forall t :: t in rows ==> IsTask(g, t)
    ensures after.Some? ==> IsNextAfter(g, rows, after.value, next)
    ensures after.None? ==>
              exists order, anchor ::
                && IsTopologicalOrder(g, order) && IsAnchor(start, order, rows, anchor)
                && IsNextAfter(g, rows, anchor, next)
  {
    var source;
    if after.Some? {
      source := after.value;
    } else {
      source := AnchorNodeId(g, start, rows);
    }
    var outcome := NextPendingTaskFrom(g, source, PendingTasks(rows));
    next := if outcome.Found? then Some(outcome.task) else None;
    assert IsNextAfter(g, rows, source, next);
  }
}
