/** Accepted submit sequences are exactly the prefixes of topological orderings of the tasks. */
module Ordering {
  import opened Values
  import opened Graphs
  import opened Acyclicity
  import opened States
  import opened Engine
  import opened Invariants
  import opened Theorems

  ghost predicate OnlySubmits(calls: seq<Call>) {
    forall i :: 0 <= i < |calls| ==> calls[i].Submit? && calls[i].expected == None
  }

  ghost function Nodes(calls: seq<Call>): seq<Id>
    requires OnlySubmits(calls)
  {
    seq(|calls|, i requires 0 <= i < |calls| => calls[i].node)
  }

  /** If the task is pending, its inputs resolve and its executor accepts. */
  ghost predicate Accepting(g: Graph, s: State, call: Call)
    requires call.Submit?
  {
    IsTask(g, call.node) && call.node in s.rows && s.rows[call.node].status == Pending ==>
      Executable(g, s, call.node, call.outputs)
  }

  /** Before every call along the run, the executors accept. */
  ghost predicate AlwaysAccepting(g: Graph, states: seq<State>, calls: seq<Call>)
    requires OnlySubmits(calls) && |states| == |calls| + 1
  {
    forall k :: 0 <= k < |calls| ==> Accepting(g, states[k], calls[k])
  }

  ghost predicate AllSucceed(g: Graph, states: seq<State>, calls: seq<Call>)
    requires |calls| < |states|
  {
    forall k :: 0 <= k < |calls| ==> Succeeds(g, states, calls, k)
  }

  /** `t` is a new task and every direct task predecessor has been listed before. */
  ghost predicate MayFollow(g: Graph, done: seq<Id>, t: Id) {
    IsTask(g, t) && t !in done && forall p :: Edge(p, t) in g.edges && IsTask(g, p) ==> p in done
  }

  /** A repeat-free list of tasks in which each comes after all its direct task predecessors. */
  ghost predicate TopologicalPrefix(g: Graph, order: seq<Id>) {
    forall k :: 0 <= k < |order| ==> MayFollow(g, order[..k], order[k])
  }

  /** The completed tasks are exactly the listed ones, and the instance is completed iff that is all of them. */
  ghost predicate Tracks(g: Graph, s: State, done: seq<Id>) {
    && (forall t :: t in s.rows ==> (s.rows[t].status == Completed <==> t in done))
    && s.status == if AllDone(g, s.rows) then WfCompleted else WfRunning
  }

  /** One submit succeeds exactly when the task may come next. */
  lemma SubmitSucceedsIff(g: Graph, s: State, done: seq<Id>, call: Call)
    requires Valid(g) && Inv(g, s) && Tracks(g, s, done)
    requires call.Submit? && call.expected == None && Accepting(g, s, call)
    ensures Refusal(g, s, call).None? <==> MayFollow(g, done, call.node)
  {
    TasksAgree(g);
    var t := call.node;
    if IsTask(g, t) {
      assert t in s.rows;
      assert s.rows[t].status == Pending <==> MayFollow(g, done, t) by {
        assert DirectReady(g, s.rows, t) <==> forall p :: Edge(p, t) in g.edges && IsTask(g, p) ==> p in done;
      }
    }
  }

  lemma SubmitTracks(g: Graph, s: State, done: seq<Id>, call: Call)
    requires Valid(g) && Inv(g, s) && Tracks(g, s, done)
    requires call.Submit? && Refusal(g, s, call).None?
    ensures Tracks(g, Apply(g, s, call), done + [call.node])
  {
    var t := call.node;
    SubmitExact(g, s, t, call.outputs, call.expected);
    CompletedAfter(g, s.rows, Worked(g, s, t, call.outputs).rows, Apply(g, s, call).rows, done, t);
  }

  lemma CompletedAfter(g: Graph, rows: map<Id, Row>, mid: map<Id, Row>, next: map<Id, Row>, done: seq<Id>, t: Id)
    requires t in rows && mid.Keys == rows.Keys == next.Keys
    requires forall u :: u in rows ==> (rows[u].status == Completed <==> u in done)
    requires mid == rows[t := mid[t]] && mid[t].status == Completed
    requires forall u :: u in rows ==> next[u] == Promoted(g, mid, u)
    ensures forall u :: u in rows ==> (next[u].status == Completed <==> u in done + [t])
  {
  }

  lemma StartTracks(g: Graph, metadata: Record, seeds: map<Id, Record>)
    requires Valid(g)
    ensures Tracks(g, StartWorkflow(g, metadata, seeds), [])
  {
    LaunchedCoherent(g, metadata, seeds);
    var s := Launched(g, metadata, seeds);
    AdvanceExact(g, s);
    PromotionKeepsDone(g, s.rows, Advance(g, s).rows);
  }

  lemma RunStarts(g: Graph, states: seq<State>, calls: seq<Call>)
    requires Valid(g) && IsRun(g, states, calls)
    ensures Tracks(g, states[0], [])
  {
    assert Arises(g, states, calls, 0);
    var metadata, seeds :| states[0] == StartWorkflow(g, metadata, seeds);
    StartTracks(g, metadata, seeds);
  }

  lemma NodesGrow(calls: seq<Call>, n: nat)
    requires OnlySubmits(calls) && n < |calls|
    ensures Nodes(calls)[..n + 1] == Nodes(calls)[..n] + [calls[n].node]
  {
  }

  lemma TracksNext(g: Graph, states: seq<State>, calls: seq<Call>, n: nat)
    requires Valid(g) && IsRun(g, states, calls) && OnlySubmits(calls) && n < |calls|
    requires Succeeds(g, states, calls, n) && Tracks(g, states[n], Nodes(calls)[..n])
    ensures Tracks(g, states[n + 1], Nodes(calls)[..n + 1])
  {
    RunMoves(g, states, calls, n);
    SubmitTracks(g, states[n], Nodes(calls)[..n], calls[n]);
    NodesGrow(calls, n);
  }

  /** The state after the first `n` calls, as long as they all succeed. */
  lemma {:induction false} RunTracks(g: Graph, states: seq<State>, calls: seq<Call>, n: nat)
    requires Valid(g) && IsRun(g, states, calls) && OnlySubmits(calls) && n <= |calls|
    requires forall k :: 0 <= k < n ==> Succeeds(g, states, calls, k)
    ensures Tracks(g, states[n], Nodes(calls)[..n])
  {
    if n == 0 {
      RunStarts(g, states, calls);
      assert Nodes(calls)[..0] == [];
    } else {
      RunTracks(g, states, calls, n - 1);
      TracksNext(g, states, calls, n - 1);
    }
  }

  lemma NextSucceedsIff(g: Graph, states: seq<State>, calls: seq<Call>, k: nat)
    requires Valid(g) && IsRun(g, states, calls) && OnlySubmits(calls) && AlwaysAccepting(g, states, calls)
    requires k < |calls| && forall j :: 0 <= j < k ==> Succeeds(g, states, calls, j)
    ensures Succeeds(g, states, calls, k) <==> MayFollow(g, Nodes(calls)[..k], Nodes(calls)[k])
  {
    RunTracks(g, states, calls, k);
    RunInv(g, states, calls, k);
    SubmitSucceedsIff(g, states[k], Nodes(calls)[..k], calls[k]);
  }

  lemma {:induction false} PrefixSucceeds(g: Graph, states: seq<State>, calls: seq<Call>, k: nat)
    requires Valid(g) && IsRun(g, states, calls) && OnlySubmits(calls) && AlwaysAccepting(g, states, calls)
    requires k < |calls| && TopologicalPrefix(g, Nodes(calls))
    ensures Succeeds(g, states, calls, k)
    decreases k
  {
    forall j | 0 <= j < k
      ensures Succeeds(g, states, calls, j)
    {
      PrefixSucceeds(g, states, calls, j);
    }
    assert MayFollow(g, Nodes(calls)[..k], Nodes(calls)[k]);
    NextSucceedsIff(g, states, calls, k);
  }

  /** From a fresh start with accepting executors, submits all succeed iff they follow a topological ordering. */
  lemma LinearExtensions(g: Graph, states: seq<State>, calls: seq<Call>)
    requires Valid(g) && IsRun(g, states, calls) && OnlySubmits(calls) && AlwaysAccepting(g, states, calls)
    ensures AllSucceed(g, states, calls) <==> TopologicalPrefix(g, Nodes(calls))
  {
    if TopologicalPrefix(g, Nodes(calls)) {
      forall k | 0 <= k < |calls|
        ensures Succeeds(g, states, calls, k)
      {
        PrefixSucceeds(g, states, calls, k);
      }
    }
    if AllSucceed(g, states, calls) {
      forall k | 0 <= k < |calls|
        ensures MayFollow(g, Nodes(calls)[..k], Nodes(calls)[k])
      {
        NextSucceedsIff(g, states, calls, k);
      }
    }
  }

  lemma PrefixNoRepeats(g: Graph, order: seq<Id>)
    requires TopologicalPrefix(g, order)
    ensures NoRepeats(order) && forall t :: t in order ==> IsTask(g, t)
  {
    forall i, j | 0 <= i < j < |order|
      ensures order[i] != order[j]
    {
      assert MayFollow(g, order[..j], order[j]);
      assert order[..j][i] == order[i];
    }
    forall t | t in order
      ensures IsTask(g, t)
    {
      var k :| 0 <= k < |order| && order[k] == t;
      assert MayFollow(g, order[..k], order[k]);
    }
  }

  lemma DoneByCount(g: Graph, rows: map<Id, Row>, order: seq<Id>)
    requires DistinctIds(g) && TopologicalPrefix(g, order)
    requires forall t :: t in rows <==> t in TaskIds(g.nodes)
    requires forall t :: t in rows ==> (rows[t].status == Completed <==> t in order)
    ensures |order| <= |TaskIds(g.nodes)|
    ensures AllDone(g, rows) <==> |order| == |TaskIds(g.nodes)|
  {
    var tasks := TaskIds(g.nodes);
    PrefixNoRepeats(g, order);
    TasksAgree(g);
    ElementCount(order);
    ElementCount(tasks);
    assert Elements(order) <= Elements(tasks);
    SubsetCount(Elements(order), Elements(tasks));
    if AllDone(g, rows) {
      forall t | t in Elements(tasks)
        ensures t in Elements(order)
      {
        assert t in tasks;
      }
    }
    if Elements(tasks) == Elements(order) {
      forall t | t in tasks
        ensures t in rows && rows[t].status == Completed
      {
        assert t in Elements(order);
      }
    }
  }

  /** The instance completes with exactly as many accepted submits as there are tasks, never earlier. */
  lemma CompletesWithLastTask(g: Graph, states: seq<State>, calls: seq<Call>)
    requires Valid(g) && IsRun(g, states, calls) && OnlySubmits(calls) && AlwaysAccepting(g, states, calls)
    requires AllSucceed(g, states, calls)
    ensures |calls| <= |TaskIds(g.nodes)|
    ensures states[|calls|].status == WfCompleted <==> |calls| == |TaskIds(g.nodes)|
  {
    LinearExtensions(g, states, calls);
    RunTracks(g, states, calls, |calls|);
    RunInv(g, states, calls, |calls|);
    assert Nodes(calls)[..|calls|] == Nodes(calls);
    DoneByCount(g, states[|calls|].rows, Nodes(calls));
  }
}
