/**
 * The graph controller: node and edge edits, the selection set, moves and
 * reloads over one model, each appending the change events it raises to
 * the state's event trace.
 *
 * `AddEdge` takes four string ids (source node, source pin, target node,
 * target pin), the form every command calls it with: it find-or-adds both
 * nodes, stores `GraphEdge.Create` under a freshly minted id, fails if that
 * id is taken and raises `EdgeAdded`. `SetNodePosition` is called by the
 * move command but is not defined by the controller; it is assumed to be an
 * assignment followed by `NodeMoved`.
 */
module Controller {
  import opened Base
  import opened Geometry
  import opened Nodes
  import opened Edges
  import opened Ids
  import opened Enumeration
  import opened Graphs
  import opened Dgml
  import opened DgmlSerializer
  import opened Persistence

  /** The controller's events, each carrying the element it reports. */
  datatype Event =
    | NodeAdded(node: Node)
    | NodeRemoved(node: Node)
    | NodeMoved(node: Node)
    | EdgeAdded(edge: Edge)
    | EdgeRemoved(edge: Edge)
    | SelectionChanged
    | GraphReset
    | GraphResetCompleted

  /**
   * The controller: its model, the ids of the selected nodes, every event
   * raised so far (oldest first), and the counter from which edge and pin
   * ids are minted.
   */
  datatype State = State(model: Model, selection: set<string>, events: seq<Event>, nextId: nat)

  /** No id minted from the counter onwards names an edge of the model. */
  ghost predicate EdgeIdsFresh(s: State) {
    forall j: nat | j >= s.nextId :: MintId(j) !in s.model.edges
  }

  /** No id minted from the counter onwards names a pin of any node. */
  ghost predicate PinIdsFresh(s: State) {
    forall j: nat, k | j >= s.nextId && k in s.model.nodes ::
      MintId(j) !in Nodes.Ids(s.model.nodes[k].inputs) && MintId(j) !in Nodes.Ids(s.model.nodes[k].outputs)
  }

  // ---------------------------------------------------------------- nodes

  /**
   * `AddNode`: stores a node with the given name at the given position and
   * raises `NodeAdded`; fails with `DuplicateKey` when the id is taken, and
   * then nothing changes.
   */
  function AddNode(s: State, id: string, name: string, position: Point3): (r: Result<(State, Node)>)
    ensures r.Err? <==> id in s.model.nodes
    ensures r.Err? ==> r.error == DuplicateKey(id)
    ensures r.Ok? ==>
      var (s', n) := r.value;
      && n.id == id && n.name == name && n.position == position
      && n.size == None && n.inputs == [] && n.outputs == []
      && s'.model.nodes.Keys == s.model.nodes.Keys + {id} && s'.model.nodes[id] == n
      && (forall k | k in s.model.nodes :: s'.model.nodes[k] == s.model.nodes[k])
      && s'.model.edges == s.model.edges && s'.model.filePath == s.model.filePath
      && s'.selection == s.selection && s'.nextId == s.nextId
      && s'.events == s.events + [NodeAdded(n)]
  {
    if id in s.model.nodes then Err(DuplicateKey(id))
    else
      var node := NewNode(id, name).(position := position);
      Ok((s.(model := s.model.(nodes := s.model.nodes[id := node]), events := s.events + [NodeAdded(node)]), node))
  }

  /**
   * `RemoveNode`: drops the node from the selection (raising
   * `SelectionChanged` only if it was selected), removes it by id and
   * raises `NodeRemoved`. Edges touching it stay in the model.
   */
  function RemoveNode(s: State, node: Node): (r: State)
    ensures node.id !in r.model.nodes
    ensures r.model.nodes.Keys == s.model.nodes.Keys - {node.id}
    ensures forall k | k in r.model.nodes :: r.model.nodes[k] == s.model.nodes[k]
    ensures r.model.edges == s.model.edges && r.model.filePath == s.model.filePath
    ensures r.selection == s.selection - {node.id} && r.nextId == s.nextId
    ensures node.id in s.selection ==> r.events == s.events + [SelectionChanged, NodeRemoved(node)]
    ensures node.id !in s.selection ==> r.events == s.events + [NodeRemoved(node)]
  {
    var deselected :=
      if node.id in s.selection
      then s.(selection := s.selection - {node.id}, events := s.events + [SelectionChanged])
      else s;
    deselected.(model := deselected.model.(nodes := deselected.model.nodes - {node.id}),
                events := deselected.events + [NodeRemoved(node)])
  }

  /** Removing a node just added restores the model; only the selection loses its id. */
  lemma AddNodeThenRemoveNode(s: State, id: string, name: string, position: Point3)
    requires id !in s.model.nodes
    ensures var (s', n) := AddNode(s, id, name, position).value;
      var r := RemoveNode(s', n);
      && r.model == s.model && r.selection == s.selection - {id} && r.nextId == s.nextId
  {
    var (s', n) := AddNode(s, id, name, position).value;
    var r := RemoveNode(s', n);
    assert r.model.nodes == s.model.nodes;
  }

  /** Every edge incident to a removed node is still in the model, now dangling. */
  lemma RemoveNodeKeepsIncidentEdges(s: State, node: Node, edgeId: string)
    requires edgeId in s.model.edges
    requires s.model.edges[edgeId].sourceNodeId == node.id || s.model.edges[edgeId].targetNodeId == node.id
    ensures var r := RemoveNode(s, node);
      && edgeId in r.model.edges && r.model.edges[edgeId] == s.model.edges[edgeId]
      && (r.model.edges[edgeId].sourceNodeId !in r.model.nodes || r.model.edges[edgeId].targetNodeId !in r.model.nodes)
  {
  }

  // ---------------------------------------------------------------- edges

  /**
   * `AddEdge` with four ids: find-or-adds the source node, then the target
   * node, and builds the edge from the found nodes' ids and the pin ids
   * under the id minted from the counter. If that id is taken the edge is
   * not stored and `DuplicateKey` is reported, but the nodes added and the
   * id consumed stay, as they do when `Dictionary.Add` throws.
   */
  function AddEdge(s: State, sN: string, sP: string, tN: string, tP: string): (r: (State, Result<Edge>))
    ensures var (s', e) := r;
      && sN in s'.model.nodes && tN in s'.model.nodes
      && s'.model.nodes.Keys == s.model.nodes.Keys + {sN, tN}
      && (forall k | k in s.model.nodes :: s'.model.nodes[k] == s.model.nodes[k])
      && s'.model.filePath == s.model.filePath
      && s'.selection == s.selection && s'.nextId == s.nextId + 1
      && (e.Err? <==> MintId(s.nextId) in s.model.edges)
      && (e.Err? ==> e.error == DuplicateKey(MintId(s.nextId)) && s'.model.edges == s.model.edges && s'.events == s.events)
      && (e.Ok? ==>
            && e.value == Create(MintId(s.nextId), s'.model.nodes[sN].id, sP, s'.model.nodes[tN].id, tP)
            && s'.model.edges == s.model.edges[e.value.id := e.value]
            && s'.events == s.events + [EdgeAdded(e.value)])
  {
    var (m1, source) := FindOrAddNode(s.model, sN, None);
    var (m2, target) := FindOrAddNode(m1, tN, None);
    var edge := Create(MintId(s.nextId), source.id, sP, target.id, tP);
    var s2 := s.(model := m2, nextId := s.nextId + 1);
    if edge.id in m2.edges then (s2, Err(DuplicateKey(edge.id)))
    else (s2.(model := m2.(edges := m2.edges[edge.id := edge]), events := s2.events + [EdgeAdded(edge)]), Ok(edge))
  }

  /** `RemoveEdge`: removes by id and raises `EdgeRemoved`, whether or not the edge was there. */
  function RemoveEdge(s: State, edge: Edge): (r: State)
    ensures edge.id !in r.model.edges
    ensures r.model.edges.Keys == s.model.edges.Keys - {edge.id}
    ensures forall k | k in r.model.edges :: r.model.edges[k] == s.model.edges[k]
    ensures r.model.nodes == s.model.nodes && r.model.filePath == s.model.filePath
    ensures r.selection == s.selection && r.nextId == s.nextId
    ensures r.events == s.events + [EdgeRemoved(edge)]
  {
    s.(model := s.model.(edges := s.model.edges - {edge.id}), events := s.events + [EdgeRemoved(edge)])
  }

  /** With a fresh counter `AddEdge` always succeeds and the counter stays fresh. */
  lemma AddEdgeWhenFresh(s: State, sN: string, sP: string, tN: string, tP: string)
    requires EdgeIdsFresh(s) && PinIdsFresh(s)
    ensures var (s', e) := AddEdge(s, sN, sP, tN, tP);
      e.Ok? && EdgeIdsFresh(s') && PinIdsFresh(s')
  {
    var (s', e) := AddEdge(s, sN, sP, tN, tP);
    assert MintId(s.nextId) !in s.model.edges;
    forall j: nat | j >= s'.nextId ensures MintId(j) !in s'.model.edges {
      MintIdInjective(j, s.nextId);
    }
  }

  /** Removing the edge just added restores the edge map; only find-or-added nodes remain. */
  lemma AddEdgeThenRemoveEdge(s: State, sN: string, sP: string, tN: string, tP: string)
    requires AddEdge(s, sN, sP, tN, tP).1.Ok?
    ensures var (s', e) := AddEdge(s, sN, sP, tN, tP);
      var r := RemoveEdge(s', e.value);
      && r.model.edges == s.model.edges
      && r.model.nodes.Keys == s.model.nodes.Keys + {sN, tN}
      && r.events == s.events + [EdgeAdded(e.value), EdgeRemoved(e.value)]
  {
    var (s', e) := AddEdge(s, sN, sP, tN, tP);
    assert RemoveEdge(s', e.value).model.edges == s.model.edges;
  }

  // ------------------------------------------------------------ selection

  /**
   * `SelectNode`: without multi-select the selection is first cleared; the
   * node is then added, raising `SelectionChanged` only if it was not
   * already in the (possibly cleared) selection.
   */
  function SelectNode(s: State, nodeId: string, multiSelect: bool): (r: State)
    ensures nodeId in r.selection
    ensures !multiSelect ==> r.selection == {nodeId} && r.events == s.events + [SelectionChanged]
    ensures multiSelect && nodeId in s.selection ==> r.selection == s.selection && r.events == s.events
    ensures multiSelect && nodeId !in s.selection ==>
      r.selection == s.selection + {nodeId} && r.events == s.events + [SelectionChanged]
    ensures r.model == s.model && r.nextId == s.nextId
  {
    var kept := if multiSelect then s.selection else {};
    if nodeId in kept then s.(selection := kept)
    else s.(selection := kept + {nodeId}, events := s.events + [SelectionChanged])
  }

  /** `ClearSelection`: nothing happens on an empty selection; otherwise it empties and raises once. */
  function ClearSelection(s: State): (r: State)
    ensures r.selection == {}
    ensures s.selection == {} ==> r == s
    ensures s.selection != {} ==> r.events == s.events + [SelectionChanged]
    ensures r.model == s.model && r.nextId == s.nextId
  {
    if |s.selection| == 0 then s
    else s.(selection := {}, events := s.events + [SelectionChanged])
  }

  /** Every selected id names a node of the model. */
  predicate SelectionInModel(s: State) {
    s.selection <= s.model.nodes.Keys
  }

  /**
   * The controller's operations keep every selected id in the model, except
   * selecting an id the model lacks: `SelectNode` keeps the invariant exactly
   * when the id is a node of the model.
   */
  lemma SelectionInModelKept(s: State, id: string, multiSelect: bool, node: Node, position: Point3, edge: Edge,
                             sN: string, sP: string, tN: string, tP: string)
    requires SelectionInModel(s)
    ensures SelectionInModel(SelectNode(s, id, multiSelect)) <==> id in s.model.nodes
    ensures SelectionInModel(ClearSelection(s)) && SelectionInModel(RemoveNode(s, node))
    ensures AddNode(s, id, node.name, position).Ok? ==> SelectionInModel(AddNode(s, id, node.name, position).value.0)
    ensures SelectionInModel(AddEdge(s, sN, sP, tN, tP).0) && SelectionInModel(RemoveEdge(s, edge))
    ensures SelectionInModel(SetNodePosition(s, id, position))
  {
    var r := SelectNode(s, id, multiSelect);
    assert id in r.selection;
  }

  /** Selecting a node that is already selected, with multi-select, changes nothing. */
  lemma SelectNodeIdempotent(s: State, nodeId: string, multiSelect: bool)
    ensures var r := SelectNode(s, nodeId, multiSelect);
      SelectNode(r, nodeId, true) == r
  {
  }

  /** Single selection and multi-selection agree when starting from an empty selection. */
  lemma SelectNodeFromEmpty(s: State, nodeId: string)
    requires s.selection == {}
    ensures SelectNode(s, nodeId, false) == SelectNode(s, nodeId, true)
  {
  }

  /** Clearing twice raises no more than clearing once. */
  lemma ClearSelectionIdempotent(s: State)
    ensures ClearSelection(ClearSelection(s)) == ClearSelection(s)
  {
  }

  // ------------------------------------------------------------- movement

  /** A node's position shifted by the delta in X and Y, with Z reset to 0. */
  function Shifted(p: Point3, delta: Vector2): (q: Point3)
    ensures q.z == 0.0 && q.x - p.x == delta.x && q.y - p.y == delta.y
  {
    Point3(p.x + delta.x, p.y + delta.y, 0.0)
  }

  /**
   * `SetNodePosition` (assumed): when the node is in the model its position
   * is assigned and `NodeMoved` raised; otherwise nothing happens.
   */
  function SetNodePosition(s: State, nodeId: string, position: Point3): (r: State)
    ensures nodeId !in s.model.nodes ==> r == s
    ensures nodeId in s.model.nodes ==>
      && r.model.nodes == s.model.nodes[nodeId := s.model.nodes[nodeId].(position := position)]
      && r.events == s.events + [NodeMoved(r.model.nodes[nodeId])]
    ensures r.model.nodes.Keys == s.model.nodes.Keys
    ensures r.model.edges == s.model.edges && r.model.filePath == s.model.filePath
    ensures r.selection == s.selection && r.nextId == s.nextId
  {
    if nodeId !in s.model.nodes then s
    else
      var moved := s.model.nodes[nodeId].(position := position);
      s.(model := s.model.(nodes := s.model.nodes[nodeId := moved]), events := s.events + [NodeMoved(moved)])
  }

  /** Setting a node back to the position it had restores the model. */
  lemma SetNodePositionRestores(s: State, nodeId: string, position: Point3)
    requires nodeId in s.model.nodes
    ensures var before := s.model.nodes[nodeId].position;
      SetNodePosition(SetNodePosition(s, nodeId, position), nodeId, before).model == s.model
  {
    var r := SetNodePosition(SetNodePosition(s, nodeId, position), nodeId, s.model.nodes[nodeId].position);
    assert r.model.nodes == s.model.nodes;
  }

  /** The last of two assignments wins. */
  lemma SetNodePositionTwice(s: State, nodeId: string, p: Point3, q: Point3)
    ensures SetNodePosition(SetNodePosition(s, nodeId, p), nodeId, q).model == SetNodePosition(s, nodeId, q).model
  {
  }

  /** The listed ids that name nodes of the model, in list order. */
  function InModel(order: seq<string>, nodes: map<string, Node>): (p: seq<string>)
    ensures forall i | 0 <= i < |p| :: p[i] in nodes && p[i] in order
    ensures forall k | k in order && k in nodes :: k in p
    ensures Distinct(order) ==> Distinct(p)
    decreases |order|
  {
    if |order| == 0 then []
    else
      var last := order[|order| - 1];
      var p := InModel(order[..|order| - 1], nodes);
      assert forall k | k in order :: k in order[..|order| - 1] || k == last;
      if last in nodes then p + [last] else p
  }

  /** One `NodeMoved` per listed node, carrying the node as it now is. */
  function MovedEvents(nodes: map<string, Node>, moved: seq<string>): (es: seq<Event>)
    requires forall i | 0 <= i < |moved| :: moved[i] in nodes
    ensures |es| == |moved|
  {
    seq(|moved|, i requires 0 <= i < |moved| => NodeMoved(nodes[moved[i]]))
  }

  /** `node.Position = new GraphPosition(X + dx, Y + dy, 0)` followed by `NodeMoved`. */
  function MoveOne(s: State, nodeId: string, delta: Vector2): (r: State)
    requires nodeId in s.model.nodes
  {
    SetNodePosition(s, nodeId, Shifted(s.model.nodes[nodeId].position, delta))
  }

  /**
   * `MoveSelectedBy` over the selection listed in `order`: every listed
   * node of the model is shifted once; ids the model lacks are skipped.
   */
  function MoveSelectedByIn(s: State, order: seq<string>, delta: Vector2): (r: State)
    ensures r.model.nodes.Keys == s.model.nodes.Keys
    ensures r.model.edges == s.model.edges && r.model.filePath == s.model.filePath
    ensures r.selection == s.selection && r.nextId == s.nextId
    ensures forall k | k in s.model.nodes && k !in order :: r.model.nodes[k] == s.model.nodes[k]
    decreases |order|
  {
    if |order| == 0 then s
    else
      var s1 := MoveSelectedByIn(s, order[..|order| - 1], delta);
      var last := order[|order| - 1];
      assert forall k | k !in order :: k !in order[..|order| - 1];
      if last in s1.model.nodes then MoveOne(s1, last, delta) else s1
  }

  /** What `MoveSelectedBy` promises: each listed node of the model moved once, the rest kept. */
  predicate MovedOnce(s: State, order: seq<string>, delta: Vector2, r: State) {
    forall k | k in s.model.nodes && k in order ::
      k in r.model.nodes && r.model.nodes[k] == s.model.nodes[k].(position := Shifted(s.model.nodes[k].position, delta))
  }

  lemma MoveSelectedByInStep(s: State, order: seq<string>, delta: Vector2)
    requires |order| > 0 && Distinct(order)
    requires MovedOnce(s, order[..|order| - 1], delta, MoveSelectedByIn(s, order[..|order| - 1], delta))
    ensures MovedOnce(s, order, delta, MoveSelectedByIn(s, order, delta))
  {
    var prefix := order[..|order| - 1];
    var s1 := MoveSelectedByIn(s, prefix, delta);
    var last := order[|order| - 1];
    var r := MoveSelectedByIn(s, order, delta);
    assert last !in prefix;
    forall k | k in s.model.nodes && k in order
      ensures k in r.model.nodes && r.model.nodes[k] == s.model.nodes[k].(position := Shifted(s.model.nodes[k].position, delta))
    {
      if k != last {
        assert k in prefix;
      }
    }
  }

  /** Over a duplicate-free order every listed node of the model is shifted exactly once. */
  lemma {:induction false} MoveSelectedByInMoves(s: State, order: seq<string>, delta: Vector2)
    requires Distinct(order)
    ensures MovedOnce(s, order, delta, MoveSelectedByIn(s, order, delta))
    decreases |order|
  {
    if |order| > 0 {
      MoveSelectedByInMoves(s, order[..|order| - 1], delta);
      MoveSelectedByInStep(s, order, delta);
    }
  }

  lemma MovedEventsSnoc(before: map<string, Node>, after: map<string, Node>, moved: seq<string>, last: string)
    requires forall i | 0 <= i < |moved| :: moved[i] in before && moved[i] in after && after[moved[i]] == before[moved[i]]
    requires last in after
    ensures MovedEvents(after, moved + [last]) == MovedEvents(before, moved) + [NodeMoved(after[last])]
  {
  }

  /**
   * Over a duplicate-free order the events raised are one `NodeMoved` per
   * listed node of the model, in list order, each carrying the moved node.
   */
  lemma {:induction false} MoveSelectedByInEvents(s: State, order: seq<string>, delta: Vector2)
    requires Distinct(order)
    ensures var r := MoveSelectedByIn(s, order, delta);
      r.events == s.events + MovedEvents(r.model.nodes, InModel(order, s.model.nodes))
    decreases |order|
  {
    if |order| > 0 {
      var prefix := order[..|order| - 1];
      var last := order[|order| - 1];
      var s1 := MoveSelectedByIn(s, prefix, delta);
      var r := MoveSelectedByIn(s, order, delta);
      MoveSelectedByInEvents(s, prefix, delta);
      var p := InModel(prefix, s.model.nodes);
      assert last !in prefix;
      if last in s.model.nodes {
        assert forall i | 0 <= i < |p| :: p[i] != last;
        MovedEventsSnoc(s1.model.nodes, r.model.nodes, p, last);
      } else {
        assert r == s1;
      }
    }
  }

  /** With the selection in the model, the selected nodes of the model are the whole selection. */
  lemma EnumerationOfSelection(s: State, moved: seq<string>)
    requires SelectionInModel(s) && IsEnumeration(moved, s.selection * s.model.nodes.Keys)
    ensures IsEnumeration(moved, s.selection) && |moved| == |s.selection|
  {
    assert s.selection * s.model.nodes.Keys == s.selection;
    EnumerationSize(moved, s.selection);
  }

  /**
   * `MoveSelectedBy`: the selection in its enumeration order. `moved` lists
   * the selected nodes of the model in the order they were moved: each
   * exactly once, each raising one `NodeMoved`.
   */
  method MoveSelectedBy(s: State, delta: Vector2) returns (r: State, moved: seq<string>)
    ensures IsEnumeration(moved, s.selection * s.model.nodes.Keys)
    ensures r.model.nodes.Keys == s.model.nodes.Keys
    ensures r.model.edges == s.model.edges && r.model.filePath == s.model.filePath
    ensures r.selection == s.selection && r.nextId == s.nextId
    ensures forall k | k in s.model.nodes && k !in s.selection :: r.model.nodes[k] == s.model.nodes[k]
    ensures forall k | k in s.model.nodes && k in s.selection ::
      r.model.nodes[k] == s.model.nodes[k].(position := Shifted(s.model.nodes[k].position, delta))
    ensures r.events == s.events + MovedEvents(r.model.nodes, moved)
    ensures SelectionInModel(s) ==> IsEnumeration(moved, s.selection) && |r.events| == |s.events| + |s.selection|
  {
    var order := Enumerate(s.selection);
    r := MoveSelectedByIn(s, order, delta);
    moved := InModel(order, s.model.nodes);
    MoveSelectedByInMoves(s, order, delta);
    MoveSelectedByInEvents(s, order, delta);
    if SelectionInModel(s) {
      EnumerationOfSelection(s, moved);
    }
  }

  // -------------------------------------------------------------- reloads

  /** The event announcing a node: `NodeAdded` when `added`, else `NodeRemoved`. */
  function NodeEvent(n: Node, added: bool): (e: Event)
    ensures e.NodeAdded? || e.NodeRemoved?
    ensures e.node == n && (e.NodeAdded? <==> added)
  {
    if added then NodeAdded(n) else NodeRemoved(n)
  }

  /** The event announcing an edge: `EdgeAdded` when `added`, else `EdgeRemoved`. */
  function EdgeEvent(x: Edge, added: bool): (e: Event)
    ensures e.EdgeAdded? || e.EdgeRemoved?
    ensures e.edge == x && (e.EdgeAdded? <==> added)
  {
    if added then EdgeAdded(x) else EdgeRemoved(x)
  }

  /** One node event per listed node, then one edge event per listed edge. */
  function Announce(m: Model, nodeOrder: seq<string>, edgeOrder: seq<string>, added: bool): (es: seq<Event>)
    requires IsEnumeration(nodeOrder, m.nodes.Keys) && IsEnumeration(edgeOrder, m.edges.Keys)
    ensures |es| == |nodeOrder| + |edgeOrder|
  {
    seq(|nodeOrder|, i requires 0 <= i < |nodeOrder| => NodeEvent(m.nodes[nodeOrder[i]], added))
    + seq(|edgeOrder|, i requires 0 <= i < |edgeOrder| => EdgeEvent(m.edges[edgeOrder[i]], added))
  }

  /**
   * An announcement has one event per node and per edge, every node event
   * before every edge event, and each event reports an element of the model.
   */
  lemma AnnounceShape(m: Model, nodeOrder: seq<string>, edgeOrder: seq<string>, added: bool)
    requires IsEnumeration(nodeOrder, m.nodes.Keys) && IsEnumeration(edgeOrder, m.edges.Keys)
    ensures var es := Announce(m, nodeOrder, edgeOrder, added);
      && |es| == |m.nodes| + |m.edges|
      && (forall i | 0 <= i < |m.nodes| :: (es[i].NodeAdded? || es[i].NodeRemoved?) && es[i].node in m.nodes.Values)
      && (forall i | |m.nodes| <= i < |es| :: (es[i].EdgeAdded? || es[i].EdgeRemoved?) && es[i].edge in m.edges.Values)
  {
    EnumerationSize(nodeOrder, m.nodes.Keys);
    EnumerationSize(edgeOrder, m.edges.Keys);
  }

  /** Every node and every edge of the model is announced. */
  lemma AnnounceComplete(m: Model, nodeOrder: seq<string>, edgeOrder: seq<string>, added: bool)
    requires IsEnumeration(nodeOrder, m.nodes.Keys) && IsEnumeration(edgeOrder, m.edges.Keys)
    ensures var es := Announce(m, nodeOrder, edgeOrder, added);
      && (forall k | k in m.nodes :: NodeEvent(m.nodes[k], added) in es)
      && (forall k | k in m.edges :: EdgeEvent(m.edges[k], added) in es)
  {
    var es := Announce(m, nodeOrder, edgeOrder, added);
    forall k | k in m.nodes ensures NodeEvent(m.nodes[k], added) in es {
      var i :| 0 <= i < |nodeOrder| && nodeOrder[i] == k;
      assert es[i] == NodeEvent(m.nodes[k], added);
    }
    forall k | k in m.edges ensures EdgeEvent(m.edges[k], added) in es {
      var i :| 0 <= i < |edgeOrder| && edgeOrder[i] == k;
      assert es[|nodeOrder| + i] == EdgeEvent(m.edges[k], added);
    }
  }

  /**
   * `ReloadFrom` over given enumeration orders: removals for the old nodes
   * then the old edges, both maps replaced by the source's (the store path
   * kept), the selection cleared, then additions for the new nodes then the
   * new edges.
   */
  function ReloadFromIn(s: State, src: Model, oldNodes: seq<string>, oldEdges: seq<string>,
                        newNodes: seq<string>, newEdges: seq<string>): (r: State)
    requires IsEnumeration(oldNodes, s.model.nodes.Keys) && IsEnumeration(oldEdges, s.model.edges.Keys)
    requires IsEnumeration(newNodes, src.nodes.Keys) && IsEnumeration(newEdges, src.edges.Keys)
    ensures r.model.nodes == src.nodes && r.model.edges == src.edges
    ensures r.model.filePath == s.model.filePath
    ensures r.selection == {} && r.nextId == s.nextId
    ensures r.events ==
      s.events + Announce(s.model, oldNodes, oldEdges, false)
      + (if s.selection == {} then [] else [SelectionChanged])
      + Announce(src, newNodes, newEdges, true)
  {
    var removed := s.(events := s.events + Announce(s.model, oldNodes, oldEdges, false));
    var reset := removed.(model := ResetFromIn(s.model, src, newNodes, newEdges));
    var cleared := ClearSelection(reset);
    cleared.(events := cleared.events + Announce(cleared.model, newNodes, newEdges, true))
  }

  /** Reloading a second time from the same source changes no element and leaves nothing selected. */
  lemma ReloadFromTwice(s: State, src: Model, oldNodes: seq<string>, oldEdges: seq<string>,
                        newNodes: seq<string>, newEdges: seq<string>)
    requires IsEnumeration(oldNodes, s.model.nodes.Keys) && IsEnumeration(oldEdges, s.model.edges.Keys)
    requires IsEnumeration(newNodes, src.nodes.Keys) && IsEnumeration(newEdges, src.edges.Keys)
    ensures var r := ReloadFromIn(s, src, oldNodes, oldEdges, newNodes, newEdges);
      var r2 := ReloadFromIn(r, src, newNodes, newEdges, newNodes, newEdges);
      && r2.model == r.model && r2.selection == {}
      && r2.events == r.events + Announce(src, newNodes, newEdges, false) + Announce(src, newNodes, newEdges, true)
  {
  }

  /** `ReloadFrom`: the old and new contents in their enumeration orders. */
  method ReloadFrom(s: State, src: Model) returns (r: State)
    ensures r.model.nodes == src.nodes && r.model.edges == src.edges
    ensures r.model.filePath == s.model.filePath
    ensures r.selection == {} && r.nextId == s.nextId
    ensures exists oldNodes, oldEdges, newNodes, newEdges ::
      && IsEnumeration(oldNodes, s.model.nodes.Keys) && IsEnumeration(oldEdges, s.model.edges.Keys)
      && IsEnumeration(newNodes, src.nodes.Keys) && IsEnumeration(newEdges, src.edges.Keys)
      && r == ReloadFromIn(s, src, oldNodes, oldEdges, newNodes, newEdges)
  {
    var oldNodes := Enumerate(s.model.nodes.Keys);
    var oldEdges := Enumerate(s.model.edges.Keys);
    var newNodes := Enumerate(src.nodes.Keys);
    var newEdges := Enumerate(src.edges.Keys);
    r := ReloadFromIn(s, src, oldNodes, oldEdges, newNodes, newEdges);
  }

  /**
   * `ReloadFromFile` once the load's outcome is known: `GraphReset`, the
   * removals, then either (on success) the cleared selection and additions,
   * or (on failure) nothing more and the error rethrown with the path; in
   * both cases `GraphResetCompleted` last. A failed load leaves the model
   * and selection as they were.
   */
  function ReloadFromFileIn(s: State, path: string, loaded: Result<Model>, next: nat,
                            oldNodes: seq<string>, oldEdges: seq<string>,
                            newNodes: seq<string>, newEdges: seq<string>): (r: (State, Option<Error>))
    requires IsEnumeration(oldNodes, s.model.nodes.Keys) && IsEnumeration(oldEdges, s.model.edges.Keys)
    requires loaded.Ok? ==> IsEnumeration(newNodes, loaded.value.nodes.Keys) && IsEnumeration(newEdges, loaded.value.edges.Keys)
    ensures var (s', err) := r;
      && |s'.events| >= |s.events| + 2
      && s'.events[..|s.events|] == s.events
      && s'.events[|s.events|] == GraphReset
      && s'.events[|s'.events| - 1] == GraphResetCompleted
      && s'.nextId == next
      && (err.Some? <==> loaded.Err?)
      && (loaded.Err? ==>
            && err == Some(LoadFailed(path, loaded.error))
            && s'.model == s.model && s'.selection == s.selection
            && s'.events == s.events + [GraphReset] + Announce(s.model, oldNodes, oldEdges, false) + [GraphResetCompleted])
      && (loaded.Ok? ==>
            var inner := ReloadFromIn(s.(events := []), loaded.value, oldNodes, oldEdges, newNodes, newEdges);
            && s'.model == inner.model && s'.selection == {}
            && s'.events == s.events + [GraphReset] + inner.events + [GraphResetCompleted])
  {
    var (inner, err) :=
      if loaded.Err? then
        (s.(events := Announce(s.model, oldNodes, oldEdges, false)), Some(LoadFailed(path, loaded.error)))
      else
        (ReloadFromIn(s.(events := []), loaded.value, oldNodes, oldEdges, newNodes, newEdges), None);
    Bracketed(s.events, inner.events);
    (inner.(events := s.events + [GraphReset] + inner.events + [GraphResetCompleted], nextId := next), err)
  }

  /** A trace wrapped in `GraphReset` ... `GraphResetCompleted` after the earlier events. */
  lemma Bracketed(before: seq<Event>, body: seq<Event>)
    ensures var es := before + [GraphReset] + body + [GraphResetCompleted];
      && |es| == |before| + |body| + 2
      && es[..|before|] == before
      && es[|before|] == GraphReset && es[|es| - 1] == GraphResetCompleted
  {
    var es := before + [GraphReset] + body + [GraphResetCompleted];
    assert es[..|before|] == before;
  }

  /**
   * `ReloadFromFile`: `GraphReset` first and `GraphResetCompleted` last,
   * even when loading fails; a failure (a missing file or a load error) is
   * rethrown as `LoadFailed` naming the path, and leaves the model and the
   * selection as they were. On success the nodes and edges are the file's
   * and the selection is empty.
   */
  method ReloadFromFile(s: State, fs: FileSystem, path: string, f: NumberFormat) returns (r: State, err: Option<Error>)
    ensures |r.events| >= |s.events| + 2
    ensures r.events[..|s.events|] == s.events
    ensures r.events[|s.events|] == GraphReset && r.events[|r.events| - 1] == GraphResetCompleted
    ensures s.nextId <= r.nextId
    ensures path !in fs ==> err == Some(LoadFailed(path, FileNotFound(path)))
    ensures path in fs && LoadBeforePins(fs, path, f, s.nextId).Err? ==>
      err == Some(LoadFailed(path, LoadBeforePins(fs, path, f, s.nextId).error))
    ensures err.Some? ==> r.model == s.model && r.selection == s.selection
    ensures path in fs && LoadBeforePins(fs, path, f, s.nextId).Ok? ==>
      var b := LoadBeforePins(fs, path, f, s.nextId).value.0;
      && err == None
      && r.model.nodes.Keys == b.nodes.Keys && r.model.edges == b.edges
      && r.model.filePath == s.model.filePath && r.selection == {}
    ensures path in fs && LoadBeforePins(fs, path, f, s.nextId).Ok? && LayoutPath(path) !in fs ==>
      r.model.nodes == LoadBeforePins(fs, path, f, s.nextId).value.0.nodes
    ensures path in fs && LoadBeforePins(fs, path, f, s.nextId).Ok? && LayoutPath(path) in fs ==>
      var b := LoadBeforePins(fs, path, f, s.nextId).value.0;
      forall k | k in b.nodes :: PinsCompleted(b.nodes[k], r.model.nodes[k], b.edges)
  {
    var oldNodes := Enumerate(s.model.nodes.Keys);
    var oldEdges := Enumerate(s.model.edges.Keys);
    var loaded, next := LoadFromDgmlFile(s.model, fs, path, f, s.nextId);
    var newNodes: seq<string> := [];
    var newEdges: seq<string> := [];
    if loaded.Ok? {
      newNodes := Enumerate(loaded.value.nodes.Keys);
      newEdges := Enumerate(loaded.value.edges.Keys);
    }
    var out := ReloadFromFileIn(s, path, loaded, next, oldNodes, oldEdges, newNodes, newEdges);
    r, err := out.0, out.1;
  }
}
