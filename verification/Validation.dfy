/** The two validators that a definition must pass before it can be published. */
module Validation {
  import opened Values
  import opened Graphs
  import opened GraphSearch
  import opened Acyclicity
  import opened Executors
  import opened Readiness

  datatype Issue =
    | EmptyGraph | InvalidEdge | InvalidStartNode | MissingEndNode
    | UnreachableNodes | UnreachableEndNode | CyclicGraph
    | UnknownInputKey | EmptyMetadataKey | UnknownMetadataKey
    | InvalidUpstreamNode | InvalidUpstreamNodeKind | UpstreamNotAncestor | UnknownOutputKey

  // ----- topology -----

  /** Ids of the nodes of kind start, or of kind end, in definition order. */
  function KindIds(nodes: seq<Node>, k: nat, starts: bool): seq<Id>
    requires k <= |nodes|
  {
    if k == 0 then []
    else
      var before := KindIds(nodes, k - 1, starts);
      var kind := nodes[k - 1].kind;
      if (if starts then kind.StartNode? else kind.EndNode?) then before + [nodes[k - 1].id] else before
  }

  ghost predicate AllReachable(g: Graph, start: Id) {
    forall x :: x in NodeIds(g) ==> x == start || Reaches(Live(g), start, x)
  }

  /** One start, some end, no dangling edge, no cycle, and every node reachable from the start. */
  ghost predicate TopologyAccepted(g: Graph) {
    && NoDangling(g)
    && var starts := KindIds(g.nodes, |g.nodes|, true);
    && |starts| == 1
    && KindIds(g.nodes, |g.nodes|, false) != []
    && AllReachable(g, starts[0])
    && Acyclic(Live(g))
  }

  lemma NothingUnreachable(g: Graph, start: Id, reachable: set<Id>)
    requires forall x :: x in reachable <==> x == start || Reaches(Live(g), start, x)
    ensures NodeIds(g) - reachable == {} <==> AllReachable(g, start)
  {
    if NodeIds(g) - reachable == {} {
      forall x | x in NodeIds(g)
        ensures x == start || Reaches(Live(g), start, x)
      {
        assert x !in NodeIds(g) - reachable;
      }
    }
    if AllReachable(g, start) {
      assert forall x :: x !in NodeIds(g) - reachable;
    }
  }

  method ValidateGraphTopology(g: Graph) returns (issues: seq<Issue>)
    ensures issues == [] <==> TopologyAccepted(g)
    ensures g.nodes != [] ==> (CyclicGraph in issues <==> !Acyclic(Live(g)))
    ensures g.nodes != [] ==> (InvalidEdge in issues <==> !NoDangling(g))
  {
    issues := [];
    if g.nodes == [] {
      return [EmptyGraph];
    }
    var ids := NodeIds(g);
    for k := 0 to |g.edges|
      invariant issues == [] || InvalidEdge in issues
      invariant forall x :: x in issues ==> x == InvalidEdge
      invariant issues == [] <==> forall i :: 0 <= i < k ==> g.edges[i].source in ids && g.edges[i].target in ids
    {
      if g.edges[k].source !in ids {
        issues := issues + [InvalidEdge];
      }
      if g.edges[k].target !in ids {
        issues := issues + [InvalidEdge];
      }
    }
    ghost var edgesFine := issues == [];
    assert edgesFine <==> NoDangling(g);
    var starts := KindIds(g.nodes, |g.nodes|, true);
    var ends := KindIds(g.nodes, |g.nodes|, false);
    if |starts| != 1 {
      issues := issues + [InvalidStartNode];
    }
    if ends == [] {
      issues := issues + [MissingEndNode];
    }
    if |starts| == 1 {
      var reachable := ReachableFrom(Live(g), starts[0]);
      var unreachable := ids - reachable;
      NothingUnreachable(g, starts[0], reachable);
      if unreachable != {} {
        issues := issues + [UnreachableNodes];
        if ends != [] && exists i :: 0 <= i < |ends| && ends[i] !in reachable {
          issues := issues + [UnreachableEndNode];
        }
      }
    }
    var cycleNodes := FindCycleNodes(g);
    if cycleNodes != {} {
      issues := issues + [CyclicGraph];
    }
  }

  // ----- input wiring -----

  function NonEmpty(ids: seq<string>): set<string> {
    set i | 0 <= i < |ids| && ids[i] != "" :: ids[i]
  }

  /** `collect_input_field_ids`. */
  function InputFields(definition: Definition): set<string> {
    match definition
    case UserInput(fields, _, _) => set f | f in fields
    case Table(headerFields, _, columns, _, _, _, _, _, _) =>
      NonEmpty(headerFields) + (set i | 0 <= i < |columns| && columns[i] != "" :: COLUMN_PREFIX + columns[i]) + {ROWS}
  }

  /** `collect_output_field_ids`. */
  function OutputFields(definition: Definition): set<string> {
    var declared := if definition.output.Some? then {definition.output.value} else {};
    match definition
    case UserInput(fields, _, _) => (set f | f in fields) + declared
    case Table(headerFields, _, _, _, _, _, aggregations, _, _) =>
      NonEmpty(headerFields)
      + (set i | 0 <= i < |aggregations| && aggregations[i].id != "" :: aggregations[i].id)
      + {ROWS} + declared
  }

  ghost predicate SourceAccepted(g: Graph, allowed: set<string>, t: Id, source: Source) {
    match source
    case Metadata(key) => key != "" && key in allowed
    case Upstream(node, outputKey) =>
      && IsTask(g, node)
      && Reaches(g.edges, node, t)
      && outputKey in OutputFields(DefinitionOf(g, node))
  }

  ghost predicate BindingAccepted(g: Graph, allowed: set<string>, t: Id, definition: Definition, b: Binding) {
    b.inputKey in InputFields(definition) && SourceAccepted(g, allowed, t, b.source)
  }

  ghost predicate NodeWired(g: Graph, allowed: set<string>, node: Node) {
    node.kind.TaskNode? ==>
      forall i :: 0 <= i < |node.kind.inputs| ==>
        BindingAccepted(g, allowed, node.id, node.kind.definition, node.kind.inputs[i])
  }

  ghost predicate WiringAccepted(g: Graph, allowed: set<string>) {
    forall k :: 0 <= k < |g.nodes| ==> NodeWired(g, allowed, g.nodes[k])
  }

  method CheckSource(g: Graph, allowed: set<string>, t: Id, ancestors: set<Id>, source: Source)
    returns (issue: Option<Issue>)
    requires forall a :: a in ancestors <==> Reaches(g.edges, a, t)
    ensures issue.None? <==> SourceAccepted(g, allowed, t, source)
    ensures source.Upstream? && IsTask(g, source.node) ==>
              (issue == Some(UpstreamNotAncestor) <==> !Reaches(g.edges, source.node, t))
  {
    match source
    case Metadata(key) =>
      if key == "" {
        return Some(EmptyMetadataKey);
      }
      return if key in allowed then None else Some(UnknownMetadataKey);
    case Upstream(node, outputKey) =>
      if FindNode(g.nodes, node).None? {
        return Some(InvalidUpstreamNode);
      }
      if !IsTask(g, node) {
        return Some(InvalidUpstreamNodeKind);
      }
      if node !in ancestors {
        return Some(UpstreamNotAncestor);
      }
      return if outputKey in OutputFields(DefinitionOf(g, node)) then None else Some(UnknownOutputKey);
  }

  method ValidateInputWiring(g: Graph, allowed: set<string>) returns (issues: seq<Issue>)
    ensures issues == [] <==> WiringAccepted(g, allowed)
  {
    issues := [];
    for k := 0 to |g.nodes|
      invariant issues == [] <==> forall j :: 0 <= j < k ==> NodeWired(g, allowed, g.nodes[j])
    {
      var node := g.nodes[k];
      if !node.kind.TaskNode? || node.kind.inputs == [] {
        continue;
      }
      var ancestors := Ancestors(g.edges, node.id);
      var definition, inputs := node.kind.definition, node.kind.inputs;
      ghost var fine := issues == [];
      for i := 0 to |inputs|
        invariant issues == [] <==>
                  fine && forall j :: 0 <= j < i ==> BindingAccepted(g, allowed, node.id, definition, inputs[j])
      {
        if inputs[i].inputKey !in InputFields(definition) {
          issues := issues + [UnknownInputKey];
        }
        var issue := CheckSource(g, allowed, node.id, ancestors, inputs[i].source);
        if issue.Some? {
          issues := issues + [issue.value];
        }
      }
    }
  }

  // ----- what acceptance means for the engine -----

  lemma {:induction false} KindIdsExact(nodes: seq<Node>, k: nat, id: Id)
    requires k <= |nodes|
    ensures id in KindIds(nodes, k, true) <==> exists i :: 0 <= i < k && nodes[i].id == id && nodes[i].kind.StartNode?
  {
    if k == 0 {
    } else {
      KindIdsExact(nodes, k - 1, id);
      var before := KindIds(nodes, k - 1, true);
      if nodes[k - 1].kind.StartNode? {
        assert KindIds(nodes, k, true) == before + [nodes[k - 1].id];
      }
    }
  }

  /** Distinct ids, no topology issue and no wiring issue: everything the engine's theorems assume. */
  lemma AcceptedIsPublished(g: Graph, allowed: set<string>) returns (start: Id)
    requires DistinctIds(g) && TopologyAccepted(g) && WiringAccepted(g, allowed)
    ensures Published(g, start)
  {
    LiveOnWellFormed(g);
    start := KindIds(g.nodes, |g.nodes|, true)[0];
    forall t | IsTask(g, t)
      ensures forall i :: 0 <= i < |InputsOf(g, t)| && InputsOf(g, t)[i].source.Upstream? ==>
                IsTask(g, InputsOf(g, t)[i].source.node) && Reaches(g.edges, InputsOf(g, t)[i].source.node, t)
    {
      FindNodeExact(g.nodes, t);
      var k :| 0 <= k < |g.nodes| && g.nodes[k] == FindNode(g.nodes, t).value;
      assert NodeWired(g, allowed, g.nodes[k]);
      forall i | 0 <= i < |InputsOf(g, t)| && InputsOf(g, t)[i].source.Upstream?
        ensures IsTask(g, InputsOf(g, t)[i].source.node) && Reaches(g.edges, InputsOf(g, t)[i].source.node, t)
      {
        assert BindingAccepted(g, allowed, t, g.nodes[k].kind.definition, g.nodes[k].kind.inputs[i]);
      }
    }
    StartIsUnique(g, start);
  }

  lemma StartIsUnique(g: Graph, start: Id)
    requires DistinctIds(g) && KindIds(g.nodes, |g.nodes|, true) == [start]
    ensures FindNode(g.nodes, start).Some? && FindNode(g.nodes, start).value.kind.StartNode?
    ensures forall x :: FindNode(g.nodes, x).Some? && FindNode(g.nodes, x).value.kind.StartNode? ==> x == start
  {
    KindIdsExact(g.nodes, |g.nodes|, start);
    FindNodeExact(g.nodes, start);
    var i :| 0 <= i < |g.nodes| && g.nodes[i].id == start && g.nodes[i].kind.StartNode?;
    var j :| 0 <= j < |g.nodes| && g.nodes[j] == FindNode(g.nodes, start).value;
    assert i == j;
    forall x | FindNode(g.nodes, x).Some? && FindNode(g.nodes, x).value.kind.StartNode?
      ensures x == start
    {
      FindNodeExact(g.nodes, x);
      KindIdsExact(g.nodes, |g.nodes|, x);
    }
  }

  /** The order of a published graph starts at its start node and puts every edge forward. */
  lemma PublishedOrder(g: Graph, start: Id, order: seq<Id>)
    requires Published(g, start) && IsTopologicalOrder(g, order)
    ensures |order| > 0 && order[0] == start
  {
    NodeIdsAgree(g, start);
    assert start in order;
    OrderBeginsAtStart(g, order, start);
  }
}
