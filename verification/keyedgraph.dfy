/**
 * The keyed graph of `DirectedGraph/GraphModel.cs` with the edges of
 * `DirectedGraph/GraphEdge.cs`: nodes stored under their ids, edges stored
 * under `BuildId(source id, target id)`, so at most one edge per key.
 * `BuildId` is the main model's edge key, `Graphs.EdgeKey`.
 */
module KeyedGraph {
  import opened Base
  import Graphs

  datatype GraphNode = GraphNode(id: string, name: string)

  datatype GraphEdge = GraphEdge(
    id: string,
    sourceSlotIndex: int,
    targetSlotIndex: int,
    sourceNode: GraphNode,
    targetNode: GraphNode)
  {
    function SourceNodeId(): string {
      sourceNode.id
    }

    function TargetNodeId(): string {
      targetNode.id
    }
  }

  datatype GraphModel = GraphModel(nodes: map<string, GraphNode>, edges: map<string, GraphEdge>)

  const Empty := GraphModel(map[], map[])

  /** The two-node constructor: both slot indexes are 0. */
  function NewEdge(source: GraphNode, target: GraphNode): (e: GraphEdge)
    ensures e.sourceNode == source && e.targetNode == target
    ensures e.sourceSlotIndex == 0 && e.targetSlotIndex == 0
    ensures e.id == Graphs.EdgeKey(e.SourceNodeId(), e.TargetNodeId())
  {
    GraphEdge(Graphs.EdgeKey(source.id, target.id), 0, 0, source, target)
  }

  /** The four-argument constructor: the given slot indexes are stored. */
  function NewEdgeWithSlots(source: GraphNode, sourceSlot: int, target: GraphNode, targetSlot: int): (e: GraphEdge)
    ensures e.sourceNode == source && e.targetNode == target
    ensures e.sourceSlotIndex == sourceSlot && e.targetSlotIndex == targetSlot
    ensures e.id == Graphs.EdgeKey(e.SourceNodeId(), e.TargetNodeId())
  {
    GraphEdge(Graphs.EdgeKey(source.id, target.id), sourceSlot, targetSlot, source, target)
  }

  /**
   * The parameterless constructor builds the id from source and target
   * nodes that are not set yet, so it always fails.
   */
  function NewUnsetEdge(): (r: Result<GraphEdge>)
    ensures r.Err? && r.error.NullReference?
  {
    Err(NullReference("SourceNode"))
  }

  /**
   * The id depends on the endpoint ids alone: the two-node constructor is
   * the four-argument one at slots 0, and edges joining the same ordered
   * pair of ids share an id whatever their slots.
   */
  lemma SamePairSameId(s: GraphNode, sourceSlot: int, t: GraphNode, targetSlot: int, s2: GraphNode, t2: GraphNode)
    requires s.id == s2.id && t.id == t2.id
    ensures NewEdge(s, t) == NewEdgeWithSlots(s, 0, t, 0)
    ensures NewEdgeWithSlots(s, sourceSlot, t, targetSlot).id == NewEdge(s2, t2).id
  {
  }

  /** `BuildId` is not injective: ("a-b", "c") and ("a", "b-c") get the same id. */
  lemma BuildIdCollides()
    ensures Graphs.EdgeKey("a-b", "c") == Graphs.EdgeKey("a", "b-c")
    ensures ("a-b", "c") != ("a", "b-c")
  {
    assert |"a-b"| != |"a"|;
  }

  /**
   * Nodes are stored under their ids; edges under their ids, which are the
   * `BuildId` of their endpoint ids, both of them stored nodes.
   */
  predicate Valid(g: GraphModel) {
    && (forall k | k in g.nodes :: g.nodes[k].id == k)
    && (forall k | k in g.edges ::
          && g.edges[k].id == k
          && k == Graphs.EdgeKey(g.edges[k].SourceNodeId(), g.edges[k].TargetNodeId())
          && g.edges[k].SourceNodeId() in g.nodes
          && g.edges[k].TargetNodeId() in g.nodes)
  }

  /**
   * `FindOrAddNode(id, name = null)`: the stored node if there is one;
   * otherwise exactly one node, named `name ?? id`, is added and returned.
   */
  function FindOrAddNode(g: GraphModel, id: string, name: Option<string>): (r: (GraphModel, GraphNode))
    ensures id in g.nodes ==> r == (g, g.nodes[id])
    ensures r.0.edges == g.edges
    ensures r.0.nodes.Keys == g.nodes.Keys + {id} && r.0.nodes[id] == r.1
    ensures forall k | k in g.nodes :: r.0.nodes[k] == g.nodes[k]
    ensures id !in g.nodes ==> r.1 == GraphNode(id, name.GetOr(id)) && |r.0.nodes| == |g.nodes| + 1
    ensures Valid(g) ==> Valid(r.0) && r.1.id == id
  {
    if id in g.nodes then (g, g.nodes[id])
    else
      var node := GraphNode(id, name.GetOr(id));
      (g.(nodes := g.nodes[id := node]), node)
  }

  /** Finding or adding a node twice is doing it once. */
  lemma FindOrAddNodeIdempotent(g: GraphModel, id: string, name: Option<string>, name2: Option<string>)
    ensures var r := FindOrAddNode(g, id, name);
      FindOrAddNode(r.0, id, name2) == r
  {
  }

  /**
   * `FindOrAddEdge`: finds or adds both endpoint nodes, then returns the
   * edge stored under the `BuildId` of their ids, adding a two-node edge
   * under that key when there is none.
   */
  function FindOrAddEdge(g: GraphModel, source: string, target: string): (r: (GraphModel, GraphEdge))
    ensures r.0.nodes.Keys == g.nodes.Keys + {source, target}
    ensures forall k | k in g.nodes :: r.0.nodes[k] == g.nodes[k]
    ensures forall k | k in g.edges :: k in r.0.edges && r.0.edges[k] == g.edges[k]
    ensures var key := Graphs.EdgeKey(r.0.nodes[source].id, r.0.nodes[target].id);
      && key in r.0.edges && r.1 == r.0.edges[key]
      && r.0.edges.Keys == g.edges.Keys + {key}
      && (key in g.edges ==> r.1 == g.edges[key] && r.0.edges == g.edges)
      && (key !in g.edges ==> r.1 == NewEdge(r.0.nodes[source], r.0.nodes[target]))
  {
    var (withSource, sourceNode) := FindOrAddNode(g, source, None);
    var (withBoth, targetNode) := FindOrAddNode(withSource, target, None);
    var key := Graphs.EdgeKey(sourceNode.id, targetNode.id);
    if key in withBoth.edges then (withBoth, withBoth.edges[key])
    else
      var edge := NewEdge(sourceNode, targetNode);
      (withBoth.(edges := withBoth.edges[key := edge]), edge)
  }

  /**
   * On a valid model the key is `BuildId(source, target)`, the returned
   * edge joins the stored source and target nodes, and the model stays valid.
   */
  lemma FindOrAddEdgeValid(g: GraphModel, source: string, target: string)
    requires Valid(g)
    ensures var r := FindOrAddEdge(g, source, target);
      && Valid(r.0)
      && Graphs.EdgeKey(source, target) in r.0.edges
      && r.1 == r.0.edges[Graphs.EdgeKey(source, target)]
      && r.1.id == Graphs.EdgeKey(source, target)
      && (Graphs.EdgeKey(source, target) !in g.edges ==> r.1.SourceNodeId() == source && r.1.TargetNodeId() == target)
  {
    var (withSource, sourceNode) := FindOrAddNode(g, source, None);
    var (withBoth, targetNode) := FindOrAddNode(withSource, target, None);
    var key := Graphs.EdgeKey(source, target);
    if key !in withBoth.edges {
      StoreEdgeKeepsValid(withBoth, NewEdge(sourceNode, targetNode));
    }
  }

  /** Storing an edge under its id, between stored nodes, keeps a model valid. */
  lemma StoreEdgeKeepsValid(g: GraphModel, e: GraphEdge)
    requires Valid(g)
    requires e.id == Graphs.EdgeKey(e.SourceNodeId(), e.TargetNodeId())
    requires e.SourceNodeId() in g.nodes && e.TargetNodeId() in g.nodes
    ensures Valid(g.(edges := g.edges[e.id := e]))
  {
  }

  /** Finding or adding an edge twice is doing it once: no second edge for the same pair. */
  lemma FindOrAddEdgeIdempotent(g: GraphModel, source: string, target: string)
    ensures var r := FindOrAddEdge(g, source, target);
      FindOrAddEdge(r.0, source, target) == r
  {
    var r := FindOrAddEdge(g, source, target);
    FindOrAddNodeIdempotent(r.0, source, None, None);
    FindOrAddNodeIdempotent(r.0, target, None, None);
  }

  /**
   * The collision of `BuildId` in practice: once an edge from "a-b" to "c"
   * is stored, asking for an edge from "a" to "b-c" returns that edge,
   * whose source is not "a", and stores nothing new but the node "a" and
   * "b-c".
   */
  lemma CollidingPairsShareEdge()
    ensures var first := FindOrAddEdge(Empty, "a-b", "c");
      var second := FindOrAddEdge(first.0, "a", "b-c");
      && second.1 == first.1
      && second.1.SourceNodeId() == "a-b"
      && second.0.edges == first.0.edges
  {
    BuildIdCollides();
    var first := FindOrAddEdge(Empty, "a-b", "c");
    FindOrAddEdgeValid(Empty, "a-b", "c");
    var (g1, _) := FindOrAddNode(first.0, "a", None);
    var (g2, _) := FindOrAddNode(g1, "b-c", None);
    assert g2.edges == first.0.edges;
  }
}
