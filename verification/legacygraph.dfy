/**
 * The dictionary-and-list graph of `DirectedGraph/DirectedGraph.cs`: nodes
 * keyed by id, each with a label, and a list of edges naming their
 * endpoint ids. Edges are never deduplicated.
 */
module LegacyGraph {
  import opened Base
  import opened Text

  datatype Node = Node(id: string, labelText: string)

  datatype Edge = Edge(sourceNodeId: string, targetNodeId: string)

  datatype GraphModel = GraphModel(nodes: map<string, Node>, edges: seq<Edge>)

  const Empty := GraphModel(map[], [])

  /** Every node is stored under its own id. */
  predicate Keyed(g: GraphModel) {
    forall k | k in g.nodes :: g.nodes[k].id == k
  }

  /** Every edge names two stored nodes. */
  predicate Closed(g: GraphModel) {
    forall i | 0 <= i < |g.edges| :: g.edges[i].sourceNodeId in g.nodes && g.edges[i].targetNodeId in g.nodes
  }

  /** No node id is blank. */
  predicate NoBlankIds(g: GraphModel) {
    forall k | k in g.nodes :: !IsNullOrWhiteSpace(Some(k))
  }

  predicate WellFormed(g: GraphModel) {
    Keyed(g) && Closed(g) && NoBlankIds(g)
  }

  /**
   * `AddNode(id, label = null)`: a present id keeps its node; otherwise a
   * node labelled `label ?? id` is stored under the id.
   */
  function AddNode(g: GraphModel, id: string, labelText: Option<string>): (r: GraphModel)
    ensures r.edges == g.edges
    ensures r.nodes.Keys == g.nodes.Keys + {id}
    ensures forall k | k in g.nodes :: r.nodes[k] == g.nodes[k]
    ensures id !in g.nodes ==> r.nodes[id].id == id && r.nodes[id].labelText == labelText.GetOr(id)
    ensures Keyed(g) ==> Keyed(r)
  {
    if id in g.nodes then g
    else g.(nodes := g.nodes[id := Node(id, labelText.GetOr(id))])
  }

  /** Adding a node twice is adding it once. */
  lemma AddNodeIdempotent(g: GraphModel, id: string, labelText: Option<string>, otherLabel: Option<string>)
    ensures AddNode(AddNode(g, id, labelText), id, otherLabel) == AddNode(g, id, labelText)
  {
  }

  /**
   * `AddEdge`: adds any missing endpoint, labelled with its id, then appends
   * the edge, even when the same pair is already joined.
   */
  function AddEdge(g: GraphModel, source: string, target: string): (r: GraphModel)
    ensures r.nodes.Keys == g.nodes.Keys + {source, target}
    ensures forall k | k in g.nodes :: r.nodes[k] == g.nodes[k]
    ensures forall k | k in r.nodes && k !in g.nodes :: r.nodes[k] == Node(k, k)
    ensures source in g.nodes && target in g.nodes ==> r.nodes == g.nodes
    ensures r.edges == g.edges + [Edge(source, target)]
  {
    var withEnds := AddNode(AddNode(g, source, None), target, None);
    withEnds.(edges := g.edges + [Edge(source, target)])
  }

  /** `AddEdge` keeps a model well formed when both ids are non-blank. */
  lemma AddEdgeKeepsWellFormed(g: GraphModel, source: string, target: string)
    requires WellFormed(g)
    requires !IsNullOrWhiteSpace(Some(source)) && !IsNullOrWhiteSpace(Some(target))
    ensures WellFormed(AddEdge(g, source, target))
  {
    var r := AddEdge(g, source, target);
    assert forall i | 0 <= i < |g.edges| :: r.edges[i] == g.edges[i];
  }

  /** The same edge added twice is listed twice; the second call adds no node. */
  lemma AddEdgeKeepsDuplicates(g: GraphModel, source: string, target: string)
    ensures var once := AddEdge(g, source, target);
      var twice := AddEdge(once, source, target);
      && twice.nodes == once.nodes
      && |twice.edges| == |g.edges| + 2
      && twice.edges[|g.edges|] == Edge(source, target)
      && twice.edges[|g.edges| + 1] == Edge(source, target)
  {
  }

  /** The graph built from empty by `AddEdge`(A, B) and `AddEdge`(B, C). */
  function ChainAbc(): GraphModel {
    AddEdge(AddEdge(Empty, "A", "B"), "B", "C")
  }

  /** A string starting with a non-white-space character is not blank. */
  lemma NotBlank(s: string)
    requires |s| > 0 && !IsWhiteSpace(s[0])
    ensures !IsNullOrWhiteSpace(Some(s))
  {
  }

  /** `ChainAbc` holds three nodes and the two edges in order. */
  lemma ChainAbcShape()
    ensures ChainAbc().nodes.Keys == {"A", "B", "C"}
    ensures |ChainAbc().nodes| == 3
    ensures ChainAbc().edges == [Edge("A", "B"), Edge("B", "C")]
  {
    ChainAbcEdges();
    ChainAbcKeys();
    DistinctChainIds();
    ThreeDistinct("A", "B", "C");
    assert |ChainAbc().nodes| == |ChainAbc().nodes.Keys|;
  }

  lemma ChainAbcEdges()
    ensures ChainAbc().edges == [Edge("A", "B"), Edge("B", "C")]
  {
    var g1 := AddEdge(Empty, "A", "B");
    assert g1.edges == [Edge("A", "B")];
  }

  lemma ChainAbcKeys()
    ensures ChainAbc().nodes.Keys == {"A", "B", "C"}
  {
    var g1 := AddEdge(Empty, "A", "B");
    assert g1.nodes.Keys == {"A", "B"};
  }

  lemma DistinctChainIds()
    ensures "A" != "B" && "B" != "C" && "A" != "C"
  {
    assert "A"[0] != "B"[0] && "B"[0] != "C"[0] && "A"[0] != "C"[0];
  }

  lemma ThreeDistinct<T>(a: T, b: T, c: T)
    requires a != b && b != c && a != c
    ensures |{a, b, c}| == 3
  {
  }

  /** The chain's ids are not blank. */
  lemma ChainIdsNotBlank()
    ensures !IsNullOrWhiteSpace(Some("A")) && !IsNullOrWhiteSpace(Some("B")) && !IsNullOrWhiteSpace(Some("C"))
  {
    NotBlank("A");
    NotBlank("B");
    NotBlank("C");
  }

  /** `ChainAbc` is well formed. */
  lemma ChainAbcWellFormed()
    ensures WellFormed(ChainAbc())
  {
    ChainIdsNotBlank();
    assert WellFormed(Empty);
    var g1 := AddEdge(Empty, "A", "B");
    AddEdgeKeepsWellFormed(Empty, "A", "B");
    AddEdgeKeepsWellFormed(g1, "B", "C");
  }
}

/**
 * The serializer of `DgmlSerializer.cs` for the graph above: a root
 * "DirectedGraph" titled "Saved Graph" with a Nodes section (Id, Label per
 * node) and a Links section (Source, Target per edge). The sections and
 * entries are written without a namespace of their own and so take the
 * root's DGML namespace, which is where loading looks for them.
 */
module LegacyDgml {
  import opened Base
  import opened Text
  import opened Dgml
  import opened Enumeration
  import opened LegacyGraph

  const Title := "Saved Graph"

  function NodeEntry(n: Node): Element {
    Element(N("Node"), map["Id" := n.id, "Label" := n.labelText], [])
  }

  function LinkEntry(e: Edge): Element {
    Element(N("Link"), map["Source" := e.sourceNodeId, "Target" := e.targetNodeId], [])
  }

  function NodeEntries(nodes: map<string, Node>, order: seq<string>): (r: seq<Element>)
    requires forall i | 0 <= i < |order| :: order[i] in nodes
    ensures |r| == |order|
    ensures forall i | 0 <= i < |order| :: r[i] == NodeEntry(nodes[order[i]])
  {
    seq(|order|, i requires 0 <= i < |order| => NodeEntry(nodes[order[i]]))
  }

  function LinkEntries(edges: seq<Edge>): (r: seq<Element>)
    ensures |r| == |edges|
    ensures forall i | 0 <= i < |edges| :: r[i] == LinkEntry(edges[i])
  {
    seq(|edges|, i requires 0 <= i < |edges| => LinkEntry(edges[i]))
  }

  /** The document `Save` writes, listing the nodes in the given enumeration order. */
  function Document(g: GraphModel, order: seq<string>): (doc: Element)
    requires forall i | 0 <= i < |order| :: order[i] in g.nodes
    ensures doc.name == N("DirectedGraph") && Attr(doc, "Title") == Some(Title)
    ensures FirstChild(doc, N("Nodes")) == Some(Element(N("Nodes"), map[], NodeEntries(g.nodes, order)))
    ensures FirstChild(doc, N("Links")) == Some(Element(N("Links"), map[], LinkEntries(g.edges)))
  {
    var children := [Element(N("Nodes"), map[], NodeEntries(g.nodes, order)), Element(N("Links"), map[], LinkEntries(g.edges))];
    assert N("Nodes") != N("Links") by { assert "Nodes"[0] != "Links"[0]; }
    assert children[1..] == [children[1]];
    assert FirstNamed(children, N("Links")) == Some(children[1]);
    Element(N("DirectedGraph"), map["Title" := Title], children)
  }

  /** `Save` for a given enumeration order of the nodes: the one file written loads back. */
  function SaveIn(fs: FileSystem, g: GraphModel, path: string, order: seq<string>): (r: FileSystem)
    requires IsEnumeration(order, g.nodes.Keys)
    ensures r.Keys == fs.Keys + {path}
    ensures forall p | p in fs && p != path :: r[p] == fs[p]
    ensures WellFormed(g) ==> Load(r, path) == Ok(g)
  {
    RoundTrip(fs, g, path, order);
    fs[path := Document(g, order)]
  }

  /** `Save`: writes the document at `path`, the nodes in the dictionary's enumeration order. */
  method Save(fs: FileSystem, g: GraphModel, path: string) returns (r: FileSystem)
    ensures r.Keys == fs.Keys + {path}
    ensures forall p | p in fs && p != path :: r[p] == fs[p]
    ensures WellFormed(g) ==> Load(r, path) == Ok(g)
  {
    var order := Enumerate(g.nodes.Keys);
    r := SaveIn(fs, g, path, order);
  }

  /**
   * The Node entries in document order: an entry whose Id is missing or
   * blank is skipped, the others are added with their Label (a repeated id
   * keeps its first node).
   */
  function LoadNodes(g: GraphModel, entries: seq<Element>): (r: GraphModel)
    ensures r.edges == g.edges
    ensures forall k | k in g.nodes :: k in r.nodes && r.nodes[k] == g.nodes[k]
    ensures forall k | k in r.nodes && k !in g.nodes :: !IsNullOrWhiteSpace(Some(k))
    ensures Keyed(g) ==> Keyed(r)
    decreases |entries|
  {
    if |entries| == 0 then g
    else
      var prev := LoadNodes(g, entries[..|entries| - 1]);
      var e := entries[|entries| - 1];
      var id := Attr(e, "Id");
      if IsNullOrWhiteSpace(id) then prev
      else AddNode(prev, id.value, Attr(e, "Label"))
  }

  /**
   * The Link entries in document order: an entry with a missing or blank
   * Source or Target is skipped, the others go through `AddEdge`.
   */
  function LoadLinks(g: GraphModel, entries: seq<Element>): (r: GraphModel)
    ensures |g.edges| <= |r.edges| <= |g.edges| + |entries|
    ensures r.edges[..|g.edges|] == g.edges
    ensures forall i | |g.edges| <= i < |r.edges| ::
      !IsNullOrWhiteSpace(Some(r.edges[i].sourceNodeId)) && !IsNullOrWhiteSpace(Some(r.edges[i].targetNodeId))
    ensures forall k | k in g.nodes :: k in r.nodes && r.nodes[k] == g.nodes[k]
    ensures WellFormed(g) ==> WellFormed(r)
    decreases |entries|
  {
    if |entries| == 0 then g
    else
      var prev := LoadLinks(g, entries[..|entries| - 1]);
      var e := entries[|entries| - 1];
      var source := Attr(e, "Source");
      var target := Attr(e, "Target");
      if IsNullOrWhiteSpace(source) || IsNullOrWhiteSpace(target) then prev
      else
        AddEdgeKeepsPrefix(prev, g.edges, source.value, target.value);
        if WellFormed(g) then
          AddEdgeKeepsWellFormed(prev, source.value, target.value);
          AddEdge(prev, source.value, target.value)
        else AddEdge(prev, source.value, target.value)
  }

  /** Appending an edge keeps any prefix of the edge list. */
  lemma AddEdgeKeepsPrefix(g: GraphModel, prefix: seq<Edge>, source: string, target: string)
    requires |prefix| <= |g.edges| && g.edges[..|prefix|] == prefix
    ensures AddEdge(g, source, target).edges[..|prefix|] == prefix
  {
    assert AddEdge(g, source, target).edges[..|prefix|] == g.edges[..|prefix|];
  }

  /**
   * `Load`: a missing file fails; otherwise the Nodes section, when present,
   * is loaded first and the Links section, when present, second. Either
   * section may be absent.
   */
  function Load(fs: FileSystem, path: string): (r: Result<GraphModel>)
    ensures path !in fs ==> r == Err(FileNotFound(path))
    ensures path in fs ==> r.Ok? && WellFormed(r.value)
    ensures path in fs && FirstChild(fs[path], N("Nodes")).None? && FirstChild(fs[path], N("Links")).None? ==> r == Ok(Empty)
  {
    if path !in fs then Err(FileNotFound(path))
    else
      var root := fs[path];
      var withNodes :=
        match FirstChild(root, N("Nodes"))
        case None => Empty
        case Some(section) => LoadNodes(Empty, ChildrenNamed(section, N("Node")));
      var withLinks :=
        match FirstChild(root, N("Links"))
        case None => withNodes
        case Some(section) => LoadLinks(withNodes, ChildrenNamed(section, N("Link")));
      Ok(withLinks)
  }

  /** The nodes whose ids the order lists. */
  function Listed(nodes: map<string, Node>, order: seq<string>): (r: map<string, Node>)
    ensures forall k :: k in r <==> k in nodes && k in order
    ensures forall k | k in r :: r[k] == nodes[k]
  {
    map k | k in nodes && k in order :: nodes[k]
  }

  lemma ListedSnoc(nodes: map<string, Node>, init: seq<string>, last: string)
    requires last in nodes && nodes[last].id == last
    ensures Listed(nodes, init + [last]) == Listed(nodes, init)[last := Node(last, nodes[last].labelText)]
  {
  }

  /** An enumeration of all the keys lists every node. */
  lemma ListedAll(nodes: map<string, Node>, order: seq<string>)
    requires IsEnumeration(order, nodes.Keys)
    ensures Listed(nodes, order) == nodes
  {
  }

  /** Adding a node missing from a model without edges stores it under its id. */
  lemma AddNewNode(nodes: map<string, Node>, id: string, labelText: string)
    requires id !in nodes
    ensures AddNode(GraphModel(nodes, []), id, Some(labelText)) == GraphModel(nodes[id := Node(id, labelText)], [])
  {
  }

  /** `LoadNodes` over one more entry with a usable Id adds that node last. */
  lemma LoadNodesSnoc(g: GraphModel, entries: seq<Element>, e: Element)
    requires !IsNullOrWhiteSpace(Attr(e, "Id"))
    ensures LoadNodes(g, entries + [e]) == AddNode(LoadNodes(g, entries), Attr(e, "Id").value, Attr(e, "Label"))
  {
    assert (entries + [e])[..|entries|] == entries;
  }

  lemma NodeEntriesSnoc(nodes: map<string, Node>, order: seq<string>, k: string)
    requires k in nodes && forall i | 0 <= i < |order| :: order[i] in nodes
    ensures NodeEntries(nodes, order + [k]) == NodeEntries(nodes, order) + [NodeEntry(nodes[k])]
  {
  }

  /** Loading the entries of distinct, stored, non-blank node ids rebuilds exactly those nodes. */
  lemma {:induction false} LoadNodeEntries(nodes: map<string, Node>, order: seq<string>)
    requires Keyed(GraphModel(nodes, [])) && NoBlankIds(GraphModel(nodes, []))
    requires Distinct(order) && forall i | 0 <= i < |order| :: order[i] in nodes
    ensures LoadNodes(Empty, NodeEntries(nodes, order)) == GraphModel(Listed(nodes, order), [])
    decreases |order|
  {
    if |order| == 0 {
      assert Listed(nodes, order) == map[];
    } else {
      var init := order[..|order| - 1];
      var last := order[|order| - 1];
      assert order == init + [last];
      assert Distinct(init) && last !in init;
      LoadNodeEntries(nodes, init);
      NodeEntriesSnoc(nodes, init, last);
      var e := NodeEntry(nodes[last]);
      assert Attr(e, "Id") == Some(last) && Attr(e, "Label") == Some(nodes[last].labelText);
      LoadNodesSnoc(Empty, NodeEntries(nodes, init), e);
      AddNewNode(Listed(nodes, init), last, nodes[last].labelText);
      ListedSnoc(nodes, init, last);
    }
  }

  /** Adding an edge between stored nodes appends it and nothing else. */
  lemma AddStoredEdge(nodes: map<string, Node>, edges: seq<Edge>, e: Edge)
    requires e.sourceNodeId in nodes && e.targetNodeId in nodes
    ensures AddEdge(GraphModel(nodes, edges), e.sourceNodeId, e.targetNodeId) == GraphModel(nodes, edges + [e])
  {
  }

  /** `LoadLinks` over one more entry with usable endpoints adds that edge last. */
  lemma LoadLinksSnoc(g: GraphModel, entries: seq<Element>, e: Element)
    requires !IsNullOrWhiteSpace(Attr(e, "Source")) && !IsNullOrWhiteSpace(Attr(e, "Target"))
    ensures LoadLinks(g, entries + [e]) == AddEdge(LoadLinks(g, entries), Attr(e, "Source").value, Attr(e, "Target").value)
  {
    assert (entries + [e])[..|entries|] == entries;
  }

  lemma LinkEntriesSnoc(edges: seq<Edge>, e: Edge)
    ensures LinkEntries(edges + [e]) == LinkEntries(edges) + [LinkEntry(e)]
  {
  }

  lemma WellFormedPrefix(nodes: map<string, Node>, edges: seq<Edge>, e: Edge)
    requires WellFormed(GraphModel(nodes, edges + [e]))
    ensures WellFormed(GraphModel(nodes, edges))
    ensures e.sourceNodeId in nodes && e.targetNodeId in nodes
    ensures !IsNullOrWhiteSpace(Some(e.sourceNodeId)) && !IsNullOrWhiteSpace(Some(e.targetNodeId))
  {
    assert (edges + [e])[|edges|] == e;
    assert forall i | 0 <= i < |edges| :: (edges + [e])[i] == edges[i];
  }

  /** Loading the entries of edges between stored, non-blank ids appends exactly those edges. */
  lemma {:induction false} LoadLinkEntries(nodes: map<string, Node>, edges: seq<Edge>)
    requires WellFormed(GraphModel(nodes, edges))
    ensures LoadLinks(GraphModel(nodes, []), LinkEntries(edges)) == GraphModel(nodes, edges)
    decreases |edges|
  {
    if |edges| > 0 {
      var init := edges[..|edges| - 1];
      var e := edges[|edges| - 1];
      assert edges == init + [e];
      WellFormedPrefix(nodes, init, e);
      LoadLinkEntries(nodes, init);
      LinkEntriesSnoc(init, e);
      LoadLinksSnoc(GraphModel(nodes, []), LinkEntries(init), LinkEntry(e));
      AddStoredEdge(nodes, init, e);
    }
  }

  /** `Load` on a document holding both sections loads the Node entries, then the Link entries. */
  lemma LoadBothSections(fs: FileSystem, path: string, nodeSection: Element, linkSection: Element)
    requires path in fs
    requires FirstChild(fs[path], N("Nodes")) == Some(nodeSection)
    requires FirstChild(fs[path], N("Links")) == Some(linkSection)
    ensures Load(fs, path) == Ok(LoadLinks(LoadNodes(Empty, ChildrenNamed(nodeSection, N("Node"))), ChildrenNamed(linkSection, N("Link"))))
  {
  }

  /** Saving a well-formed model in any node order and loading it back gives the same model. */
  lemma RoundTrip(fs: FileSystem, g: GraphModel, path: string, order: seq<string>)
    requires IsEnumeration(order, g.nodes.Keys)
    ensures WellFormed(g) ==> Load(fs[path := Document(g, order)], path) == Ok(g)
  {
    if WellFormed(g) {
      var nodeSection := Element(N("Nodes"), map[], NodeEntries(g.nodes, order));
      var linkSection := Element(N("Links"), map[], LinkEntries(g.edges));
      assert ChildrenNamed(nodeSection, N("Node")) == NodeEntries(g.nodes, order);
      assert ChildrenNamed(linkSection, N("Link")) == LinkEntries(g.edges);
      LoadBothSections(fs[path := Document(g, order)], path, nodeSection, linkSection);
      LoadNodeEntries(g.nodes, order);
      ListedAll(g.nodes, order);
      LoadLinkEntries(g.nodes, g.edges);
    }
  }

  /** Whatever `Load` reads saves and reloads unchanged. */
  lemma LoadSaveLoad(fs: FileSystem, path: string, order: seq<string>, fs2: FileSystem, path2: string)
    requires Load(fs, path).Ok?
    requires IsEnumeration(order, Load(fs, path).value.nodes.Keys)
    ensures Load(fs2[path2 := Document(Load(fs, path).value, order)], path2) == Load(fs, path)
  {
    RoundTrip(fs2, Load(fs, path).value, path2, order);
  }

  /**
   * Saving the graph built by `AddEdge`(A, B), `AddEdge`(B, C) and loading
   * it gives three nodes and two edges, A to B and B to C.
   */
  lemma ChainRoundTrip(fs: FileSystem, path: string, order: seq<string>)
    requires IsEnumeration(order, ChainAbc().nodes.Keys)
    ensures var r := Load(fs[path := Document(ChainAbc(), order)], path);
      && r.Ok? && |r.value.nodes| == 3 && |r.value.edges| == 2
      && Edge("A", "B") in r.value.edges && Edge("B", "C") in r.value.edges
  {
    ChainAbcShape();
    ChainAbcWellFormed();
    RoundTrip(fs, ChainAbc(), path, order);
  }
}
