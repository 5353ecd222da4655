/** The edge record: an identifier and four endpoint ids, fixed once created. */
module Edges {
  import opened Ids

  datatype Edge = Edge(
    id: string,
    sourceNodeId: string,
    sourcePinId: string,
    targetNodeId: string,
    targetPinId: string)

  /** An edge built with no initialiser: a fresh id and empty endpoint ids. */
  function DefaultEdge(newId: string): (e: Edge)
    ensures e.id == newId
    ensures e.sourceNodeId == "" && e.sourcePinId == "" && e.targetNodeId == "" && e.targetPinId == ""
  {
    Edge(newId, "", "", "", "")
  }

  /** `GraphEdge.Create`: exactly the four endpoint ids, under the id minted for it. */
  function Create(newId: string, sN: string, sP: string, tN: string, tP: string): (e: Edge)
    ensures e.id == newId
    ensures e.sourceNodeId == sN && e.sourcePinId == sP && e.targetNodeId == tN && e.targetPinId == tP
  {
    DefaultEdge(newId).(sourceNodeId := sN, sourcePinId := sP, targetNodeId := tN, targetPinId := tP)
  }

  /** Two creations from distinct counters never share an id, even with equal endpoints. */
  lemma CreateFreshIds(a: nat, b: nat, sN: string, sP: string, tN: string, tP: string)
    requires a != b
    ensures Create(MintId(a), sN, sP, tN, tP).id != Create(MintId(b), sN, sP, tN, tP).id
    ensures Create(MintId(a), sN, sP, tN, tP) != Create(MintId(b), sN, sP, tN, tP)
  {
    MintIdInjective(a, b);
  }
}

/**
 * The graph model: nodes keyed by node id, edges keyed by edge id, and the
 * path of the model's store.
 */
module Graphs {
  import opened Base
  import opened Text
  import opened Nodes
  import opened Edges
  import opened Enumeration
  import opened Dictionaries

  datatype Model = Model(nodes: map<string, Node>, edges: map<string, Edge>, filePath: string)

  const Empty := Model(map[], map[], "")

  /** Every node is stored under its own id. */
  predicate NodesKeyed(m: Model) {
    forall k | k in m.nodes :: m.nodes[k].id == k
  }

  /**
   * Returns the node stored under `id`, adding `Node(id, name ?? id)` first
   * when there is none.
   */
  function FindOrAddNode(m: Model, id: string, name: Option<string>): (r: (Model, Node))
    ensures id in r.0.nodes && r.0.nodes[id] == r.1
    ensures id in m.nodes ==> r == (m, m.nodes[id])
    ensures id !in m.nodes ==> r.1 == NewNode(id, name.GetOr(id))
    ensures r.0.nodes.Keys == m.nodes.Keys + {id}
    ensures forall k | k in m.nodes :: r.0.nodes[k] == m.nodes[k]
    ensures r.0.edges == m.edges && r.0.filePath == m.filePath
    ensures NodesKeyed(m) ==> NodesKeyed(r.0)
  {
    if id in m.nodes then (m, m.nodes[id])
    else
      var node := NewNode(id, name.GetOr(id));
      (m.(nodes := m.nodes[id := node]), node)
  }

  /** A second find-or-add of the same id changes nothing and finds the same node. */
  lemma FindOrAddNodeIdempotent(m: Model, id: string, name: Option<string>, name2: Option<string>)
    ensures var r := FindOrAddNode(m, id, name);
      FindOrAddNode(r.0, id, name2) == r
  {
  }

  /** The id of the edge between two nodes: source id, '-', target id. */
  function EdgeKey(sourceNodeId: string, targetNodeId: string): (k: string)
    ensures |k| == |sourceNodeId| + 1 + |targetNodeId|
    ensures k[..|sourceNodeId|] == sourceNodeId && k[|sourceNodeId|] == '-'
    ensures k[|sourceNodeId| + 1..] == targetNodeId
  {
    sourceNodeId + "-" + targetNodeId
  }

  /**
   * Keys of edges whose source ids contain no '-' determine both endpoints;
   * with a '-' in the source they need not: ("a-b", "c") and ("a", "b-c")
   * share the key "a-b-c".
   */
  lemma EdgeKeyInjective(s1: string, t1: string, s2: string, t2: string)
    requires '-' !in s1 && '-' !in s2
    ensures EdgeKey(s1, t1) == EdgeKey(s2, t2) <==> s1 == s2 && t1 == t2
  {
    if EdgeKey(s1, t1) == EdgeKey(s2, t2) {
      var k := EdgeKey(s1, t1);
      IndexOfIsFirst(k, '-', |s1|);
      IndexOfIsFirst(k, '-', |s2|);
      assert k[..|s2|] == s2 && k[|s2| + 1..] == t2;
    }
  }

  /** Every edge is stored under its own id. */
  predicate EdgesKeyed(m: Model) {
    forall k | k in m.edges :: m.edges[k].id == k
  }

  /**
   * Find-or-adds both endpoint nodes (possibly the same one), then returns
   * the edge stored under their key, adding one with those endpoints and
   * empty pin ids when there is none.
   */
  function FindOrAddEdge(m: Model, sourceNodeId: string, targetNodeId: string): (r: (Model, Edge))
    ensures sourceNodeId in r.0.nodes && targetNodeId in r.0.nodes
    ensures r.0.nodes.Keys == m.nodes.Keys + {sourceNodeId, targetNodeId}
    ensures forall k | k in m.nodes :: r.0.nodes[k] == m.nodes[k]
    ensures var s, t := r.0.nodes[sourceNodeId].id, r.0.nodes[targetNodeId].id;
      var key := EdgeKey(s, t);
      && key in r.0.edges && r.0.edges[key] == r.1
      && (key in m.edges ==> r.0.edges == m.edges && r.1 == m.edges[key])
      && (key !in m.edges ==>
            && r.0.edges.Keys == m.edges.Keys + {key}
            && (forall k | k in m.edges :: r.0.edges[k] == m.edges[k])
            && r.1 == Create(key, s, "", t, ""))
    ensures NodesKeyed(m) ==>
      (NodesKeyed(r.0) && r.0.nodes[sourceNodeId].id == sourceNodeId && r.0.nodes[targetNodeId].id == targetNodeId)
    ensures EdgesKeyed(m) ==> EdgesKeyed(r.0)
    ensures r.0.filePath == m.filePath
  {
    var (m1, source) := FindOrAddNode(m, sourceNodeId, None);
    var (m2, target) := FindOrAddNode(m1, targetNodeId, None);
    var key := EdgeKey(source.id, target.id);
    if key in m2.edges then (m2, m2.edges[key])
    else
      var edge := Create(key, source.id, "", target.id, "");
      (m2.(edges := m2.edges[key := edge]), edge)
  }

  /**
   * Repeating a find-or-add of an edge adds nothing: there is at most one
   * edge per ordered pair of endpoint ids.
   */
  lemma FindOrAddEdgeIdempotent(m: Model, sourceNodeId: string, targetNodeId: string)
    ensures var r := FindOrAddEdge(m, sourceNodeId, targetNodeId);
      FindOrAddEdge(r.0, sourceNodeId, targetNodeId) == r
  {
  }

  /**
   * Clears both maps and copies `source`'s entries in, in `source`'s
   * enumeration order; the store path is kept.
   */
  function ResetFromIn(m: Model, source: Model, nodeOrder: seq<string>, edgeOrder: seq<string>): (r: Model)
    requires IsEnumeration(nodeOrder, source.nodes.Keys)
    requires IsEnumeration(edgeOrder, source.edges.Keys)
    ensures r.nodes == source.nodes && r.edges == source.edges
    ensures r.filePath == m.filePath
  {
    CopyAllIntoEmpty(source.nodes, nodeOrder);
    CopyAllIntoEmpty(source.edges, edgeOrder);
    m.(nodes := AddRange(map[], Pairs(source.nodes, nodeOrder)),
       edges := AddRange(map[], Pairs(source.edges, edgeOrder)))
  }

  /** `GraphModel.ResetFrom`: afterwards both maps equal the source's, whatever the order of copying. */
  method ResetFrom(m: Model, source: Model) returns (r: Model)
    ensures r.nodes == source.nodes && r.edges == source.edges
    ensures r.filePath == m.filePath
  {
    var nodeOrder := Enumerate(source.nodes.Keys);
    var edgeOrder := Enumerate(source.edges.Keys);
    r := ResetFromIn(m, source, nodeOrder, edgeOrder);
  }
}
