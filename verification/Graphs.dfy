/** Workflow graphs, their adjacency, and paths along edges. */
module Graphs {
  import opened Values

  /** One column aggregate of a table task. */
  datatype Aggregation = Aggregation(id: string, columnId: string, operation: string)

  /** A pinned node definition. The form rules are abstract accept/reject predicates. */
  datatype Definition =
    | UserInput(fields: seq<string>, acceptsForm: Record -> bool, output: Option<string>)
    | Table(
        headerFields: seq<string>,
        acceptsHeader: Record -> bool,
        columns: seq<string>,
        acceptsRow: Record -> bool,
        minRows: int,
        maxRows: Option<int>,
        aggregations: seq<Aggregation>,
        parseText: string -> Option<real>,
        output: Option<string>)

  datatype Source = Upstream(node: Id, outputKey: string) | Metadata(key: string)

  datatype Binding = Binding(inputKey: string, source: Source, locked: bool)

  datatype Kind = StartNode | TaskNode(definition: Definition, inputs: seq<Binding>) | EndNode

  datatype Node = Node(id: Id, kind: Kind)

  datatype Edge = Edge(source: Id, target: Id)

  datatype Graph = Graph(nodes: seq<Node>, edges: seq<Edge>)

  // ----- nodes -----

  function NodeIds(g: Graph): set<Id> {
    set i | 0 <= i < |g.nodes| :: g.nodes[i].id
  }

  ghost predicate DistinctIds(g: Graph) {
    forall i, j :: 0 <= i < j < |g.nodes| ==> g.nodes[i].id != g.nodes[j].id
  }

  ghost predicate NoDangling(g: Graph) {
    forall e :: e in g.edges ==> e.source in NodeIds(g) && e.target in NodeIds(g)
  }

  /** What every stored definition satisfies once publishing has succeeded on distinct ids. */
  ghost predicate WellFormed(g: Graph) {
    DistinctIds(g) && NoDangling(g)
  }

  /** `_nodes_by_id.get`: with a repeated id the last node wins. */
  function FindNode(nodes: seq<Node>, id: Id): Option<Node> {
    if nodes == [] then None
    else if nodes[|nodes| - 1].id == id then Some(nodes[|nodes| - 1])
    else FindNode(nodes[..|nodes| - 1], id)
  }

  lemma {:induction false} FindNodeExact(nodes: seq<Node>, id: Id)
    ensures FindNode(nodes, id).Some? <==> exists i :: 0 <= i < |nodes| && nodes[i].id == id
    ensures FindNode(nodes, id).Some? ==>
              FindNode(nodes, id).value.id == id &&
              exists i :: 0 <= i < |nodes| && nodes[i] == FindNode(nodes, id).value
  {
    if nodes == [] {
    } else {
      var last := |nodes| - 1;
      if nodes[last].id == id {
      } else {
        FindNodeExact(nodes[..last], id);
        if FindNode(nodes, id).Some? {
          var i :| 0 <= i < last && nodes[..last][i] == FindNode(nodes, id).value;
          assert nodes[i] == FindNode(nodes, id).value;
        }
        forall i | 0 <= i < |nodes| && nodes[i].id == id
          ensures FindNode(nodes, id).Some?
        {
          assert nodes[..last][i].id == id;
        }
      }
    }
  }

  predicate IsTask(g: Graph, id: Id) {
    var node := FindNode(g.nodes, id);
    node.Some? && node.value.kind.TaskNode?
  }

  function DefinitionOf(g: Graph, id: Id): Definition
    requires IsTask(g, id)
  {
    FindNode(g.nodes, id).value.kind.definition
  }

  function InputsOf(g: Graph, id: Id): seq<Binding>
    requires IsTask(g, id)
  {
    FindNode(g.nodes, id).value.kind.inputs
  }

  /** `task_nodes`: task ids in definition order. */
  function TaskIds(nodes: seq<Node>): seq<Id> {
    if nodes == [] then []
    else if nodes[0].kind.TaskNode? then [nodes[0].id] + TaskIds(nodes[1..])
    else TaskIds(nodes[1..])
  }

  ghost predicate NoRepeats<T(!new)>(s: seq<T>) {
    forall i, j :: 0 <= i < j < |s| ==> s[i] != s[j]
  }

  lemma {:induction false} TaskIdsMember(nodes: seq<Node>, id: Id)
    ensures id in TaskIds(nodes) <==> exists i :: 0 <= i < |nodes| && nodes[i].id == id && nodes[i].kind.TaskNode?
  {
    if nodes == [] {
    } else {
      TaskIdsMember(nodes[1..], id);
      if id in TaskIds(nodes) && !(nodes[0].id == id && nodes[0].kind.TaskNode?) {
        var i :| 0 <= i < |nodes[1..]| && nodes[1..][i].id == id && nodes[1..][i].kind.TaskNode?;
        assert nodes[i + 1].id == id && nodes[i + 1].kind.TaskNode?;
      }
      forall i | 0 <= i < |nodes| && nodes[i].id == id && nodes[i].kind.TaskNode?
        ensures id in TaskIds(nodes)
      {
        if i > 0 {
          assert nodes[1..][i - 1] == nodes[i];
        }
      }
    }
  }

  lemma {:induction false} TaskIdsNoRepeats(nodes: seq<Node>)
    requires forall i, j :: 0 <= i < j < |nodes| ==> nodes[i].id != nodes[j].id
    ensures NoRepeats(TaskIds(nodes))
  {
    if nodes == [] {
    } else {
      TaskIdsNoRepeats(nodes[1..]);
      TaskIdsMember(nodes[1..], nodes[0].id);
      if nodes[0].id in TaskIds(nodes[1..]) {
        assert false;
      }
    }
  }

  /** With distinct ids, the listing and the lookup agree on what is a task. */
  lemma TasksAgree(g: Graph)
    requires DistinctIds(g)
    ensures forall id :: id in TaskIds(g.nodes) <==> IsTask(g, id)
    ensures NoRepeats(TaskIds(g.nodes))
  {
    TaskIdsNoRepeats(g.nodes);
    forall id
      ensures id in TaskIds(g.nodes) <==> IsTask(g, id)
    {
      TaskIdsMember(g.nodes, id);
      FindNodeExact(g.nodes, id);
    }
  }

  lemma NodeIdsAgree(g: Graph, id: Id)
    ensures id in NodeIds(g) <==> FindNode(g.nodes, id).Some?
  {
    FindNodeExact(g.nodes, id);
  }

  // ----- adjacency -----

  /** Targets of the first `k` edges that leave `id`, in edge order. */
  function TargetsUpTo(edges: seq<Edge>, k: nat, id: Id): seq<Id>
    requires k <= |edges|
  {
    if k == 0 then []
    else if edges[k - 1].source == id then TargetsUpTo(edges, k - 1, id) + [edges[k - 1].target]
    else TargetsUpTo(edges, k - 1, id)
  }

  /** Sources of the first `k` edges that enter `id`, in edge order. */
  function SourcesUpTo(edges: seq<Edge>, k: nat, id: Id): seq<Id>
    requires k <= |edges|
  {
    if k == 0 then []
    else if edges[k - 1].target == id then SourcesUpTo(edges, k - 1, id) + [edges[k - 1].source]
    else SourcesUpTo(edges, k - 1, id)
  }

  function Targets(edges: seq<Edge>, id: Id): seq<Id> {
    TargetsUpTo(edges, |edges|, id)
  }

  function Sources(edges: seq<Edge>, id: Id): seq<Id> {
    SourcesUpTo(edges, |edges|, id)
  }

  lemma {:induction false} UpToMember(edges: seq<Edge>, k: nat, a: Id, b: Id)
    requires k <= |edges|
    ensures multiset(TargetsUpTo(edges, k, a))[b] == multiset(edges[..k])[Edge(a, b)]
    ensures multiset(SourcesUpTo(edges, k, b))[a] == multiset(edges[..k])[Edge(a, b)]
  {
    if k == 0 {
    } else {
      UpToMember(edges, k - 1, a, b);
      assert edges[..k] == edges[..k - 1] + [edges[k - 1]];
    }
  }

  /** Both adjacency lists hold an edge exactly as often as the edge list does. */
  lemma AdjacencyExact(edges: seq<Edge>, a: Id, b: Id)
    ensures multiset(Targets(edges, a))[b] == multiset(Sources(edges, b))[a] == multiset(edges)[Edge(a, b)]
    ensures b in Targets(edges, a) <==> Edge(a, b) in edges
    ensures a in Sources(edges, b) <==> Edge(a, b) in edges
  {
    UpToMember(edges, |edges|, a, b);
    assert edges[..|edges|] == edges;
  }

  /** Construction of the forward and backward dictionaries: one pass over the edges. */
  method BuildAdjacency(ids: set<Id>, edges: seq<Edge>) returns (forward: map<Id, seq<Id>>, backward: map<Id, seq<Id>>)
    ensures forward.Keys == backward.Keys == ids
    ensures forall id :: id in ids ==> forward[id] == Targets(edges, id)
    ensures forall id :: id in ids ==> backward[id] == Sources(edges, id)
  {
    forward := map id | id in ids :: [];
    backward := map id | id in ids :: [];
    for k := 0 to |edges|
      invariant forward.Keys == backward.Keys == ids
      invariant forall id :: id in ids ==> forward[id] == TargetsUpTo(edges, k, id)
      invariant forall id :: id in ids ==> backward[id] == SourcesUpTo(edges, k, id)
    {
      var edge := edges[k];
      if edge.source in forward {
        forward := forward[edge.source := forward[edge.source] + [edge.target]];
      }
      if edge.target in backward {
        backward := backward[edge.target := backward[edge.target] + [edge.source]];
      }
    }
  }

  /** The edges whose source is a node: the only ones a dictionary keyed by node ids keeps. */
  function Live(g: Graph): seq<Edge> {
    LiveUpTo(g.edges, |g.edges|, NodeIds(g))
  }

  function LiveUpTo(edges: seq<Edge>, k: nat, ids: set<Id>): seq<Edge>
    requires k <= |edges|
  {
    if k == 0 then []
    else if edges[k - 1].source in ids then LiveUpTo(edges, k - 1, ids) + [edges[k - 1]]
    else LiveUpTo(edges, k - 1, ids)
  }

  lemma {:induction false} LiveMember(edges: seq<Edge>, k: nat, ids: set<Id>, e: Edge)
    requires k <= |edges|
    ensures e in LiveUpTo(edges, k, ids) <==> e in edges[..k] && e.source in ids
  {
    if k == 0 {
    } else {
      LiveMember(edges, k - 1, ids, e);
      assert edges[..k] == edges[..k - 1] + [edges[k - 1]];
    }
  }

  /** On a graph without dangling edges nothing is dropped. */
  lemma {:induction false} LiveWhole(edges: seq<Edge>, k: nat, ids: set<Id>)
    requires k <= |edges|
    requires forall e :: e in edges ==> e.source in ids
    ensures LiveUpTo(edges, k, ids) == edges[..k]
  {
    if k == 0 {
    } else {
      LiveWhole(edges, k - 1, ids);
      assert edges[k - 1] in edges;
    }
  }

  // ----- paths -----

  /** At least one edge, and every step follows an edge. */
  ghost predicate IsPath(edges: seq<Edge>, p: seq<Id>) {
    |p| >= 2 && forall i, j :: 0 <= i && j == i + 1 < |p| ==> Edge(p[i], p[j]) in edges
  }

  ghost predicate PathBetween(edges: seq<Edge>, p: seq<Id>, a: Id, b: Id) {
    IsPath(edges, p) && p[0] == a && p[|p| - 1] == b
  }

  /** A path with at least one edge leads from `a` to `b`. */
  ghost predicate Reaches(edges: seq<Edge>, a: Id, b: Id) {
    exists p :: PathBetween(edges, p, a, b)
  }

  ghost predicate Acyclic(edges: seq<Edge>) {
    forall a :: !Reaches(edges, a, a)
  }

  lemma EdgeReaches(edges: seq<Edge>, a: Id, b: Id)
    requires Edge(a, b) in edges
    ensures Reaches(edges, a, b)
  {
    assert PathBetween(edges, [a, b], a, b);
  }

  lemma ReachesTransitive(edges: seq<Edge>, a: Id, b: Id, c: Id)
    requires Reaches(edges, a, b) && Reaches(edges, b, c)
    ensures Reaches(edges, a, c)
  {
    var p :| PathBetween(edges, p, a, b);
    var q :| PathBetween(edges, q, b, c);
    var r := p + q[1..];
    forall i | 0 <= i < |r| - 1
      ensures Edge(r[i], r[i + 1]) in edges
    {
      if i >= |p| - 1 {
        assert Edge(q[i - |p| + 1], q[i - |p| + 2]) in edges;
      } else {
        assert Edge(p[i], p[i + 1]) in edges;
      }
    }
    assert PathBetween(edges, r, a, c);
  }

  /** A path is one edge, or one edge followed by a path. */
  lemma FirstStep(edges: seq<Edge>, a: Id, b: Id) returns (c: Id)
    requires Reaches(edges, a, b)
    ensures Edge(a, c) in edges && (c == b || Reaches(edges, c, b))
  {
    var p :| PathBetween(edges, p, a, b);
    c := p[1];
    assert Edge(p[0], p[1]) in edges;
    if |p| > 2 {
      var q := p[1..];
      forall i | 0 <= i < |q| - 1
        ensures Edge(q[i], q[i + 1]) in edges
      {
        assert Edge(p[i + 1], p[i + 2]) in edges;
      }
      assert PathBetween(edges, q, c, b);
    }
  }

  /** A path is one edge, or a path followed by one edge. */
  lemma LastStep(edges: seq<Edge>, a: Id, b: Id) returns (c: Id)
    requires Reaches(edges, a, b)
    ensures Edge(c, b) in edges && (c == a || Reaches(edges, a, c))
  {
    var p :| PathBetween(edges, p, a, b);
    c := p[|p| - 2];
    assert Edge(p[|p| - 2], p[|p| - 2 + 1]) in edges;
    if |p| > 2 {
      assert PathBetween(edges, p[..|p| - 1], a, c);
    }
  }

  ghost predicate ClosedUnder(edges: seq<Edge>, s: set<Id>) {
    forall e :: e in edges && e.source in s ==> e.target in s
  }

  /** A path whose first step lands in a closed set never leaves it. */
  lemma ClosedKeepsPaths(edges: seq<Edge>, s: set<Id>, a: Id, b: Id)
    requires ClosedUnder(edges, s) && Reaches(edges, a, b)
    requires forall c :: Edge(a, c) in edges ==> c in s
    ensures b in s
  {
    var p :| PathBetween(edges, p, a, b);
    assert Edge(p[0], p[1]) in edges;
    var i := 1;
    while i < |p| - 1
      invariant 1 <= i < |p| && p[i] in s
    {
      assert Edge(p[i], p[i + 1]) in edges;
      i := i + 1;
    }
  }
}
