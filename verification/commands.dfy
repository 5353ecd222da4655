/**
 * The undoable commands over the controller: a move of one node, adding
 * and removing an edge, inserting a pin, and the two composites. The
 * top-level command classes and the ones nested in `UndoCommands` behave
 * alike, except the nested `AddEdgeCommand`, whose constructor leaves it
 * without a controller (see `NewNestedAddEdgeAsWritten`).
 *
 * A command object refers to its node by reference; here it names the node
 * by id, and a command whose node is not in the model leaves the model
 * alone. Fields a command fills in when it runs (`edge`, `created`,
 * `snapshot`) are part of the command value that `Do` and `Undo` return.
 */
module Commands {
  import opened Base
  import opened Geometry
  import opened Pins
  import opened Nodes
  import opened Edges
  import opened Ids
  import opened Graphs
  import opened Controller
  import CommandStack

  datatype Cmd =
    | MoveNodeCommand(nodeId: string, oldPosition: Point3, newPosition: Point3)
    | AddEdgeCommand(sN: string, sP: string, tN: string, tP: string, edge: Option<Edge>)
    | DetachedAddEdgeCommand
    | RemoveEdgeCommand(snapshot: Edge)
    | InsertPinCommand(nodeId: string, dir: Direction, index: int, created: Option<Pin>)
    | CompositeCommand(first: Cmd, second: Cmd)
    | ConnectWithAutoPinCommand(insertPin: Option<Cmd>, addEdge: Cmd)

  type Run = CommandStack.Run<State, Cmd>

  // --------------------------------------------------------- construction

  /** `new MoveNodeCommand(controller, node, newPosition)`: the node's current position becomes `OldPosition`. */
  function NewMoveNode(node: Node, newPosition: Point3): (c: Cmd)
    ensures c.MoveNodeCommand? && c.nodeId == node.id
    ensures c.oldPosition == node.position && c.newPosition == newPosition
  {
    MoveNodeCommand(node.id, node.position, newPosition)
  }

  /**
   * `new AddEdgeCommand(ctl, sNode, sPin, tNode, tPin)`: a missing
   * controller throws `ArgumentNullException`; otherwise the four endpoint
   * ids are captured now and no edge is recorded yet.
   */
  function NewAddEdge(hasController: bool, sNode: Node, sPin: Pin, tNode: Node, tPin: Pin): (r: Result<Cmd>)
    ensures r.Err? <==> !hasController
    ensures r.Err? ==> r.error == ArgumentNull("ctl")
    ensures r.Ok? ==> r.value.AddEdgeCommand? && r.value.edge == None
    ensures r.Ok? ==> r.value.sN == sNode.id && r.value.sP == sPin.id && r.value.tN == tNode.id && r.value.tP == tPin.id
  {
    if !hasController then Err(ArgumentNull("ctl"))
    else Ok(AddEdgeCommand(sNode.id, sPin.id, tNode.id, tPin.id, None))
  }

  /**
   * The nested `UndoCommands.AddEdgeCommand` constructor as written: it
   * tests its own controller field, which is still null, and returns at
   * once, so the command never gets a controller or endpoint ids.
   */
  function NewNestedAddEdgeAsWritten(hasController: bool, sN: string, sP: string, tN: string, tP: string): (c: Cmd)
    ensures !c.AddEdgeCommand?
  {
    DetachedAddEdgeCommand
  }

  /** `new RemoveEdgeCommand(ctl, edge)`: the edge is the snapshot. */
  function NewRemoveEdge(edge: Edge): (c: Cmd)
    ensures c.RemoveEdgeCommand? && c.snapshot == edge
  {
    RemoveEdgeCommand(edge)
  }

  /** `new InsertPinCommand(node, dir, index)`: no pin created yet. */
  function NewInsertPin(node: Node, dir: Direction, index: int): (c: Cmd)
    ensures c.InsertPinCommand? && c.nodeId == node.id && c.dir == dir && c.index == index && c.created == None
  {
    InsertPinCommand(node.id, dir, index, None)
  }

  // ------------------------------------------------------------ Do / Undo

  /** `node.InsertInput(index)` or `node.InsertOutput(index)`, with the default label and capacity. */
  function InsertOnSide(n: Node, dir: Direction, index: int, newId: string): (r: (Node, Pin))
    ensures r == Insert(n, dir, index, None, 1, newId)
  {
    if dir == Input then InsertInput(n, index, None, 1, newId) else InsertOutput(n, index, None, 1, newId)
  }

  /** `InsertPinCommand.Do`: inserts a pin on the node's side and records it; nothing when the node is gone. */
  function DoInsertPin(s: State, c: Cmd): (r: Run)
    requires c.InsertPinCommand?
    ensures r.cmd.InsertPinCommand? && r.cmd == c.(created := r.cmd.created) && r.failure.None?
    ensures Framed(s, r.state)
  {
    if c.nodeId !in s.model.nodes then CommandStack.Run(s, c, None)
    else
      var (n, pin) := InsertOnSide(s.model.nodes[c.nodeId], c.dir, c.index, MintId(s.nextId));
      CommandStack.Run(s.(model := s.model.(nodes := s.model.nodes[c.nodeId := n]), nextId := s.nextId + 1),
                       c.(created := Some(pin)), None)
  }

  /** `InsertPinCommand.Undo`: removes the recorded pin from the node, if both are there. */
  function UndoInsertPin(s: State, c: Cmd): (r: Run)
    requires c.InsertPinCommand?
    ensures r.cmd == c && r.failure.None?
    ensures Framed(s, r.state)
  {
    if c.created.None? || c.nodeId !in s.model.nodes then CommandStack.Run(s, c, None)
    else
      var n := RemovePin(s.model.nodes[c.nodeId], c.created.value).0;
      CommandStack.Run(s.(model := s.model.(nodes := s.model.nodes[c.nodeId := n])), c, None)
  }

  /** What no command touches: the selection and the file path; the id counter only grows. */
  predicate Framed(s: State, s': State) {
    s'.selection == s.selection && s'.model.filePath == s.model.filePath && s.nextId <= s'.nextId
  }

  /** The one exception a command lets through: a duplicate key from adding an edge. */
  predicate OnlyDuplicateKey(failure: Option<Error>) {
    failure.Some? ==> failure.value.DuplicateKey?
  }

  /**
   * `Do` of each command; the pin or edge a command creates takes the next
   * minted id. Only adding an edge can fail; a move, a removal and a pin
   * insertion keep (or only fill in) their command; composites keep their shape.
   */
  function Do(s: State, c: Cmd): (r: Run)
    ensures Framed(s, r.state) && OnlyDuplicateKey(r.failure)
    ensures c.MoveNodeCommand? || c.RemoveEdgeCommand? || c.DetachedAddEdgeCommand? ==> r.cmd == c && r.failure.None?
    ensures c.DetachedAddEdgeCommand? ==> r.state == s
    ensures c.RemoveEdgeCommand? ==> r.state.model.edges == s.model.edges - {c.snapshot.id}
    ensures c.AddEdgeCommand? ==>
      && r.cmd.AddEdgeCommand? && r.cmd == c.(edge := r.cmd.edge)
      && (r.failure.Some? ==> r.cmd == c && r.state.model.edges == s.model.edges)
      && (r.failure.None? ==> r.cmd.edge.Some? && r.state.model.edges == s.model.edges[r.cmd.edge.value.id := r.cmd.edge.value])
    ensures c.InsertPinCommand? ==> r.cmd.InsertPinCommand? && r.cmd == c.(created := r.cmd.created) && r.failure.None?
    ensures c.CompositeCommand? ==> r.cmd.CompositeCommand?
    ensures c.ConnectWithAutoPinCommand? ==> r.cmd.ConnectWithAutoPinCommand? && r.cmd.insertPin.Some? == c.insertPin.Some?
    decreases c, 1
  {
    match c
    case MoveNodeCommand(id, _, p) =>
      CommandStack.Run(SetNodePosition(s, id, p), c, None)
    case AddEdgeCommand(sN, sP, tN, tP, _) =>
      var (s', e) := AddEdge(s, sN, sP, tN, tP);
      if e.Err? then CommandStack.Run(s', c, Some(e.error))
      else CommandStack.Run(s', c.(edge := Some(e.value)), None)
    case DetachedAddEdgeCommand =>
      CommandStack.Run(s, c, None)
    case RemoveEdgeCommand(snapshot) =>
      CommandStack.Run(RemoveEdge(s, snapshot), c, None)
    case InsertPinCommand(_, _, _, _) =>
      DoInsertPin(s, c)
    case CompositeCommand(first, second) =>
      DoThen(Do(s, first), second)
    case ConnectWithAutoPinCommand(insertPin, addEdge) =>
      match insertPin
      case None =>
        var r2 := Do(s, addEdge);
        CommandStack.Run(r2.state, ConnectWithAutoPinCommand(None, r2.cmd), r2.failure)
      case Some(ins) =>
        DoConnectThen(Do(s, ins), addEdge)
  }

  /** The rest of a composite's `Do` once `first` has run: `second` runs unless `first` failed. */
  function DoThen(r1: Run, second: Cmd): (r: Run)
    ensures r.cmd.CompositeCommand? && r.cmd.first == r1.cmd
    ensures Framed(r1.state, r.state) && (OnlyDuplicateKey(r1.failure) ==> OnlyDuplicateKey(r.failure))
    decreases second, 2
  {
    if r1.failure.Some? then CommandStack.Run(r1.state, CompositeCommand(r1.cmd, second), r1.failure)
    else
      var r2 := Do(r1.state, second);
      CommandStack.Run(r2.state, CompositeCommand(r1.cmd, r2.cmd), r2.failure)
  }

  /** The rest of a connection's `Do` once the pin command has run: the edge is added unless that failed. */
  function DoConnectThen(r1: Run, addEdge: Cmd): (r: Run)
    ensures r.cmd.ConnectWithAutoPinCommand? && r.cmd.insertPin == Some(r1.cmd)
    ensures Framed(r1.state, r.state) && (OnlyDuplicateKey(r1.failure) ==> OnlyDuplicateKey(r.failure))
    decreases addEdge, 2
  {
    if r1.failure.Some? then CommandStack.Run(r1.state, ConnectWithAutoPinCommand(Some(r1.cmd), addEdge), r1.failure)
    else
      var r2 := Do(r1.state, addEdge);
      CommandStack.Run(r2.state, ConnectWithAutoPinCommand(Some(r1.cmd), r2.cmd), r2.failure)
  }

  /**
   * `Undo` of each command. `RemoveEdgeCommand.Undo` re-adds an edge with
   * the snapshot's endpoint ids under a fresh id and, as written, keeps the
   * old snapshot, so a redo removes the old id and not the re-added edge
   * (the evidently intended undo is `UndoRemoveEdgeCorrected`).
   */
  function Undo(s: State, c: Cmd): (r: Run)
    ensures Framed(s, r.state) && OnlyDuplicateKey(r.failure)
    ensures c.MoveNodeCommand? || c.AddEdgeCommand? || c.DetachedAddEdgeCommand? || c.InsertPinCommand? ==>
      r.cmd == c && r.failure.None?
    ensures c.RemoveEdgeCommand? ==> r.cmd == c
    ensures c.DetachedAddEdgeCommand? || (c.AddEdgeCommand? && c.edge.None?) ==> r.state == s
    ensures c.AddEdgeCommand? && c.edge.Some? ==> r.state.model.edges == s.model.edges - {c.edge.value.id}
    ensures c.CompositeCommand? ==> r.cmd.CompositeCommand?
    ensures c.ConnectWithAutoPinCommand? ==> r.cmd.ConnectWithAutoPinCommand? && r.cmd.insertPin.Some? == c.insertPin.Some?
    decreases c, 1
  {
    match c
    case MoveNodeCommand(id, before, _) =>
      CommandStack.Run(SetNodePosition(s, id, before), c, None)
    case AddEdgeCommand(_, _, _, _, edge) =>
      if edge.None? then CommandStack.Run(s, c, None)
      else CommandStack.Run(RemoveEdge(s, edge.value), c, None)
    case DetachedAddEdgeCommand =>
      CommandStack.Run(s, c, None)
    case RemoveEdgeCommand(snapshot) =>
      var (s', e) := AddEdge(s, snapshot.sourceNodeId, snapshot.sourcePinId, snapshot.targetNodeId, snapshot.targetPinId);
      CommandStack.Run(s', c, if e.Err? then Some(e.error) else None)
    case InsertPinCommand(_, _, _, _) =>
      UndoInsertPin(s, c)
    case CompositeCommand(first, second) =>
      UndoThen(Undo(s, second), first)
    case ConnectWithAutoPinCommand(insertPin, addEdge) =>
      match insertPin
      case None =>
        var r2 := Undo(s, addEdge);
        CommandStack.Run(r2.state, ConnectWithAutoPinCommand(None, r2.cmd), r2.failure)
      case Some(ins) =>
        UndoConnectThen(Undo(s, addEdge), ins)
  }

  /** The rest of a composite's `Undo` once `second` is undone: `first` is undone unless that failed. */
  function UndoThen(r2: Run, first: Cmd): (r: Run)
    ensures r.cmd.CompositeCommand? && r.cmd.second == r2.cmd
    ensures Framed(r2.state, r.state) && (OnlyDuplicateKey(r2.failure) ==> OnlyDuplicateKey(r.failure))
    decreases first, 2
  {
    if r2.failure.Some? then CommandStack.Run(r2.state, CompositeCommand(first, r2.cmd), r2.failure)
    else
      var r1 := Undo(r2.state, first);
      CommandStack.Run(r1.state, CompositeCommand(r1.cmd, r2.cmd), r1.failure)
  }

  /** The rest of a connection's `Undo` once the edge is undone: the pin command is undone unless that failed. */
  function UndoConnectThen(r2: Run, ins: Cmd): (r: Run)
    ensures r.cmd.ConnectWithAutoPinCommand? && r.cmd.insertPin.Some? && r.cmd.addEdge == r2.cmd
    ensures Framed(r2.state, r.state) && (OnlyDuplicateKey(r2.failure) ==> OnlyDuplicateKey(r.failure))
    decreases ins, 2
  {
    if r2.failure.Some? then CommandStack.Run(r2.state, ConnectWithAutoPinCommand(Some(ins), r2.cmd), r2.failure)
    else
      var r1 := Undo(r2.state, ins);
      CommandStack.Run(r1.state, ConnectWithAutoPinCommand(Some(r1.cmd), r2.cmd), r1.failure)
  }

  /** What undo must give back: the model. Events, the id counter and the selection are not restored. */
  function ModelOf(s: State): Model {
    s.model
  }

  /** `Undo` after a successful `Do` of `c` at `s` succeeds and gives back the model of `s`. */
  ghost predicate Restores(s: State, c: Cmd) {
    var d := Do(s, c);
    d.failure.None? ==> Undo(d.state, d.cmd).failure.None? && Undo(d.state, d.cmd).state.model == s.model
  }

  /** `Restores` is the history's notion of an invertible command, seen through the model. */
  lemma RestoresInverts(s: State, c: Cmd)
    ensures Restores(s, c) <==> CommandStack.Inverts(Do, Undo, ModelOf, s, c)
  {
  }

  /** The model `Undo` of `c` leaves, and whether it fails, depend on the model it starts from alone. */
  ghost predicate UndoLocal(c: Cmd) {
    forall x: State :: UndoReadsModel(x, c)
  }

  /** A state holding model `m` and nothing else. */
  function Bare(m: Model): State {
    State(m, {}, [], 0)
  }

  /** At `x`, `Undo` of `c` fails and leaves a model exactly as it does from `x`'s model alone. */
  ghost predicate UndoReadsModel(x: State, c: Cmd) {
    Undo(x, c).failure == Undo(Bare(x.model), c).failure
    && Undo(x, c).state.model == Undo(Bare(x.model), c).state.model
  }

  // ----------------------------------------------------------------- moves

  /**
   * `TryMergeWith` on a move: a move of the same node is absorbed, taking
   * its new position and keeping this command's old one; anything else is
   * refused and changes nothing.
   */
  function TryMergeWith(c: Cmd, other: Cmd): (r: (Cmd, bool))
    requires c.MoveNodeCommand?
    ensures r.1 <==> other.MoveNodeCommand? && other.nodeId == c.nodeId
    ensures r.0.MoveNodeCommand? && r.0.nodeId == c.nodeId && r.0.oldPosition == c.oldPosition
    ensures r.1 ==> r.0.newPosition == other.newPosition
    ensures !r.1 ==> r.0 == c
  {
    match other
    case MoveNodeCommand(id, _, p) =>
      if id == c.nodeId then (c.(newPosition := p), true) else (c, false)
    case _ => (c, false)
  }

  /** Merging each of a drag's later moves into its first, in order. */
  function MergeAll(c: Cmd, later: seq<Cmd>): (r: Cmd)
    requires c.MoveNodeCommand?
    ensures r.MoveNodeCommand?
    decreases |later|
  {
    if |later| == 0 then c
    else TryMergeWith(MergeAll(c, later[..|later| - 1]), later[|later| - 1]).0
  }

  /**
   * After merging a drag's moves of one node, the command keeps the
   * position from before the drag and takes the last move's target.
   */
  lemma {:induction false} MergeAllOfOneNode(c: Cmd, later: seq<Cmd>)
    requires c.MoveNodeCommand? && |later| > 0
    requires forall i | 0 <= i < |later| :: later[i].MoveNodeCommand? && later[i].nodeId == c.nodeId
    ensures MergeAll(c, later) == c.(newPosition := later[|later| - 1].newPosition)
    decreases |later|
  {
    var prefix := later[..|later| - 1];
    if |prefix| > 0 {
      MergeAllOfOneNode(c, prefix);
    }
  }

  /**
   * A move built from the node as it is now is undone exactly: `Do` puts
   * the node at the new position, and `Undo` gives back the model.
   */
  lemma MoveNodeRestores(s: State, c: Cmd)
    requires c.MoveNodeCommand?
    requires c.nodeId in s.model.nodes ==> s.model.nodes[c.nodeId].position == c.oldPosition
    ensures c.nodeId in s.model.nodes ==> Do(s, c).state.model.nodes[c.nodeId].position == c.newPosition
    ensures Do(s, c).failure.None? && Do(s, c).cmd == c
    ensures Restores(s, c)
  {
    var d := Do(s, c);
    if c.nodeId in s.model.nodes {
      SetNodePositionRestores(s, c.nodeId, c.newPosition);
    }
  }

  /**
   * A drag is a first move built from the node as it is, then further moves
   * of that node merged into it; after the merged drag the node is at the
   * last target, and one undo gives back the model from before the drag.
   */
  lemma MergedDragRestores(s: State, nodeId: string, moves: seq<Cmd>)
    requires nodeId in s.model.nodes && s.model.nodes[nodeId].id == nodeId && |moves| > 0
    requires forall i | 0 <= i < |moves| :: moves[i].MoveNodeCommand? && moves[i].nodeId == nodeId
    requires moves[0] == NewMoveNode(s.model.nodes[nodeId], moves[0].newPosition)
    ensures var d := Do(s, MergeAll(moves[0], moves[1..]));
      && d.state.model.nodes[nodeId].position == moves[|moves| - 1].newPosition
      && Undo(d.state, d.cmd).state.model == s.model
  {
    var merged := MergeAll(moves[0], moves[1..]);
    if |moves| > 1 {
      MergeAllOfOneNode(moves[0], moves[1..]);
    }
    assert merged.oldPosition == s.model.nodes[nodeId].position;
    MoveNodeRestores(s, merged);
  }

  // ----------------------------------------------------------- edge adds

  /** `Undo` of an add-edge command that has not run does nothing. */
  lemma AddEdgeUndoBeforeDo(s: State, hasController: bool, sNode: Node, sPin: Pin, tNode: Node, tPin: Pin)
    requires hasController
    ensures var c := NewAddEdge(hasController, sNode, sPin, tNode, tPin).value;
      Undo(s, c) == CommandStack.Run(s, c, None)
  {
  }

  /**
   * `Do` calls `AddEdge` with the captured ids and records the edge it
   * returns; `Undo` removes that edge, leaving the edge map as before `Do`,
   * with only the endpoint nodes `AddEdge` found or added.
   */
  lemma AddEdgeDoThenUndo(s: State, c: Cmd)
    requires c.AddEdgeCommand?
    requires Do(s, c).failure.None?
    ensures var d := Do(s, c);
      var u := Undo(d.state, d.cmd);
      && d.cmd.edge == Some(AddEdge(s, c.sN, c.sP, c.tN, c.tP).1.value)
      && u.failure.None?
      && u.state.model.edges == s.model.edges
      && u.state.model.nodes.Keys == s.model.nodes.Keys + {c.sN, c.tN}
      && (forall k | k in s.model.nodes :: u.state.model.nodes[k] == s.model.nodes[k])
  {
    var (s', e) := AddEdge(s, c.sN, c.sP, c.tN, c.tP);
    var d := Do(s, c);
    assert d == CommandStack.Run(s', c.(edge := Some(e.value)), None);
    AddEdgeThenRemoveEdge(s, c.sN, c.sP, c.tN, c.tP);
    assert Undo(d.state, d.cmd) == CommandStack.Run(RemoveEdge(s', e.value), d.cmd, None);
  }

  /** When both endpoint nodes exist, adding an edge is undone exactly. */
  lemma AddEdgeRestores(s: State, c: Cmd)
    requires c.AddEdgeCommand? && c.sN in s.model.nodes && c.tN in s.model.nodes
    ensures Restores(s, c)
  {
    if Do(s, c).failure.None? {
      AddEdgeDoThenUndo(s, c);
      var u := Undo(Do(s, c).state, Do(s, c).cmd);
      assert u.state.model.nodes == s.model.nodes;
    }
  }

  /**
   * The nested add-edge command as written does nothing on `Do` or `Undo`,
   * where the command the constructor evidently meant to build adds an
   * edge (with a fresh counter, always).
   */
  lemma NestedAddEdgeInert(s: State, sNode: Node, sPin: Pin, tNode: Node, tPin: Pin)
    requires EdgeIdsFresh(s) && PinIdsFresh(s)
    ensures var c := NewNestedAddEdgeAsWritten(true, sNode.id, sPin.id, tNode.id, tPin.id);
      Do(s, c) == CommandStack.Run(s, c, None) && Undo(s, c) == CommandStack.Run(s, c, None)
    ensures var c := NewAddEdge(true, sNode, sPin, tNode, tPin).value;
      var d := Do(s, c);
      && d.failure.None? && d.state.model.edges != s.model.edges
  {
    var c := NewAddEdge(true, sNode, sPin, tNode, tPin).value;
    AddEdgeWhenFresh(s, c.sN, c.sP, c.tN, c.tP);
    var d := Do(s, c);
    assert MintId(s.nextId) in d.state.model.edges;
  }

  // --------------------------------------------------------- edge removes

  /**
   * The evidently intended `RemoveEdgeCommand.Undo`: the same state and
   * outcome as `Undo`, but the edge it re-adds becomes the snapshot, so a
   * redo removes that edge.
   */
  function UndoRemoveEdgeCorrected(s: State, c: Cmd): (r: Run)
    requires c.RemoveEdgeCommand?
    ensures r.state == Undo(s, c).state && r.failure == Undo(s, c).failure
    ensures r.cmd.RemoveEdgeCommand?
    ensures r.failure.None? ==> r.cmd.snapshot.id in r.state.model.edges && r.state.model.edges[r.cmd.snapshot.id] == r.cmd.snapshot
    ensures r.failure.Some? ==> r.cmd == c
  {
    var (s', e) := AddEdge(s, c.snapshot.sourceNodeId, c.snapshot.sourcePinId, c.snapshot.targetNodeId, c.snapshot.targetPinId);
    if e.Err? then CommandStack.Run(s', c, Some(e.error))
    else CommandStack.Run(s', RemoveEdgeCommand(e.value), None)
  }

  /** The edge `AddEdge` builds from an edge's endpoint ids, under a new id. */
  function Recreated(snapshot: Edge, id: string): (e: Edge)
    ensures e.id == id
    ensures e == Create(id, snapshot.sourceNodeId, snapshot.sourcePinId, snapshot.targetNodeId, snapshot.targetPinId)
  {
    snapshot.(id := id)
  }

  /**
   * `Do` removes the snapshot by id; `Undo` re-adds an edge with the same
   * endpoint ids under a fresh id (so the edge map differs from the
   * original only in that edge's id) and keeps the old snapshot.
   */
  lemma RemoveEdgeDoThenUndo(s: State, c: Cmd)
    requires c.RemoveEdgeCommand? && NodesKeyed(s.model) && EdgeIdsFresh(s) && PinIdsFresh(s)
    ensures var d := Do(s, c);
      var u := Undo(d.state, d.cmd);
      var e := Recreated(c.snapshot, MintId(s.nextId));
      && d.failure.None? && c.snapshot.id !in d.state.model.edges
      && u.failure.None? && u.cmd == c
      && u.state.model.edges == (s.model.edges - {c.snapshot.id})[e.id := e]
  {
    var d := Do(s, c);
    var sn := c.snapshot;
    AddEdgeWhenFresh(d.state, sn.sourceNodeId, sn.sourcePinId, sn.targetNodeId, sn.targetPinId);
  }

  /**
   * With the recreated edge kept as the snapshot, a redo after the corrected
   * undo removes it again: the edge map is the one the first `Do` left.
   */
  lemma RemoveEdgeRedoRemoves(s: State, c: Cmd)
    requires c.RemoveEdgeCommand? && NodesKeyed(s.model) && EdgeIdsFresh(s) && PinIdsFresh(s)
    ensures var d := Do(s, c);
      var u := UndoRemoveEdgeCorrected(d.state, d.cmd);
      && u.cmd == RemoveEdgeCommand(Recreated(c.snapshot, MintId(s.nextId)))
      && Do(u.state, u.cmd).state.model.edges == d.state.model.edges
  {
    RemoveEdgeDoThenUndo(s, c);
    var d := Do(s, c);
    var u := UndoRemoveEdgeCorrected(d.state, d.cmd);
    assert Do(u.state, u.cmd).state.model.edges == d.state.model.edges;
  }

  /**
   * As written, a redo after `Undo` removes only the original id, so the
   * edge `Undo` recreated survives the redo.
   */
  lemma RemoveEdgeRedoKeepsRecreatedAsWritten(s: State, c: Cmd)
    requires c.RemoveEdgeCommand? && c.snapshot.id in s.model.edges
    requires NodesKeyed(s.model) && EdgeIdsFresh(s) && PinIdsFresh(s)
    ensures var d := Do(s, c);
      var u := Undo(d.state, d.cmd);
      var redone := Do(u.state, u.cmd).state;
      var e := Recreated(c.snapshot, MintId(s.nextId));
      && u.failure.None?
      && e.id in redone.model.edges && redone.model.edges[e.id] == e
      && redone.model.edges != d.state.model.edges
  {
    var d := Do(s, c);
    var sn := c.snapshot;
    AddEdgeWhenFresh(d.state, sn.sourceNodeId, sn.sourcePinId, sn.targetNodeId, sn.targetPinId);
    assert MintId(s.nextId) !in d.state.model.edges;
    assert MintId(s.nextId) != sn.id by {
      assert MintId(s.nextId) !in s.model.edges;
    }
  }


  // ------------------------------------------------------------ pin inserts

  /** `Undo` of an insert-pin command that has not run does nothing. */
  lemma InsertPinUndoBeforeDo(s: State, node: Node, dir: Direction, index: int)
    ensures var c := NewInsertPin(node, dir, index);
      Undo(s, c) == CommandStack.Run(s, c, None)
  {
  }

  /**
   * `Do` inserts a pin on the side `dir` names, at the index clamped into
   * the side, records it, and touches neither the opposite side nor any
   * other node.
   */
  lemma InsertPinDoes(s: State, c: Cmd)
    requires c.InsertPinCommand? && c.nodeId in s.model.nodes
    ensures var d := Do(s, c);
      var n := s.model.nodes[c.nodeId];
      var n' := d.state.model.nodes[c.nodeId];
      var at := Clamp(c.index, 0, |Side(n, c.dir)|);
      && d.failure.None? && d.cmd.InsertPinCommand? && d.cmd.created.Some?
      && |Side(n', c.dir)| == |Side(n, c.dir)| + 1 && Side(n', c.dir)[at] == d.cmd.created.value
      && d.cmd.created.value.id == MintId(s.nextId) && d.cmd.created.value.direction == c.dir
      && Contiguous(Side(n', c.dir))
      && Side(n', Opposite(c.dir)) == Side(n, Opposite(c.dir))
      && d.state.model.nodes.Keys == s.model.nodes.Keys
      && (forall k | k in s.model.nodes && k != c.nodeId :: d.state.model.nodes[k] == s.model.nodes[k])
      && d.state.model.edges == s.model.edges
  {
  }

  /**
   * `Undo` removes exactly the recorded pin, so on a contiguously indexed
   * side with a fresh counter the node, and the model, are as before `Do`.
   */
  lemma InsertPinRestores(s: State, c: Cmd)
    requires c.InsertPinCommand? && PinIdsFresh(s)
    requires c.nodeId in s.model.nodes ==> Contiguous(Side(s.model.nodes[c.nodeId], c.dir))
    ensures Restores(s, c)
  {
    var d := Do(s, c);
    assert d == DoInsertPin(s, c);
    assert Undo(d.state, d.cmd) == UndoInsertPin(d.state, d.cmd);
    if c.nodeId in s.model.nodes {
      FreshPinId(s, c.nodeId, c.dir);
      InsertPinUndoesInsert(s, c);
    }
  }

  /** The node-level core of `InsertPinRestores`. */
  lemma InsertPinUndoesInsert(s: State, c: Cmd)
    requires c.InsertPinCommand? && c.nodeId in s.model.nodes
    requires Contiguous(Side(s.model.nodes[c.nodeId], c.dir))
    requires MintId(s.nextId) !in Nodes.Ids(Side(s.model.nodes[c.nodeId], c.dir))
    ensures var d := DoInsertPin(s, c);
      UndoInsertPin(d.state, d.cmd).state.model == s.model
  {
    var n := s.model.nodes[c.nodeId];
    InsertOnSideThenRemove(n, c.dir, c.index, MintId(s.nextId));
    DoInsertPinModel(s, c);
    var d := DoInsertPin(s, c);
    UndoInsertPinModel(d.state, d.cmd);
    PutBack(s.model.nodes, c.nodeId, d.state.model.nodes[c.nodeId]);
  }

  /** Overwriting a key and then writing its old value back gives the map back. */
  lemma PutBack<K, V>(m: map<K, V>, k: K, v: V)
    requires k in m
    ensures m[k := v][k := m[k]] == m
  {
  }

  lemma FreshPinId(s: State, k: string, d: Direction)
    requires PinIdsFresh(s) && k in s.model.nodes
    ensures MintId(s.nextId) !in Nodes.Ids(Side(s.model.nodes[k], d))
  {
  }

  lemma InsertOnSideThenRemove(n: Node, d: Direction, index: int, newId: string)
    requires Contiguous(Side(n, d)) && newId !in Nodes.Ids(Side(n, d))
    ensures var ins := InsertOnSide(n, d, index, newId); RemovePin(ins.0, ins.1).0 == n
  {
    InsertThenRemove(n, d, index, None, 1, newId);
  }

  lemma DoInsertPinModel(s: State, c: Cmd)
    requires c.InsertPinCommand? && c.nodeId in s.model.nodes
    ensures var ins := InsertOnSide(s.model.nodes[c.nodeId], c.dir, c.index, MintId(s.nextId));
      && DoInsertPin(s, c).state.model == s.model.(nodes := s.model.nodes[c.nodeId := ins.0])
      && DoInsertPin(s, c).cmd == c.(created := Some(ins.1))
  {
  }

  lemma UndoInsertPinModel(s: State, c: Cmd)
    requires c.InsertPinCommand? && c.created.Some? && c.nodeId in s.model.nodes
    ensures UndoInsertPin(s, c).state.model
      == s.model.(nodes := s.model.nodes[c.nodeId := RemovePin(s.model.nodes[c.nodeId], c.created.value).0])
  {
  }

  // ------------------------------------------------------------ composites

  /** The undo of moves, edge adds and pin inserts reads the model only. */
  lemma UndoLocalSimple(c: Cmd)
    requires c.MoveNodeCommand? || c.AddEdgeCommand? || c.DetachedAddEdgeCommand? || c.InsertPinCommand?
    ensures UndoLocal(c)
  {
    forall x: State ensures UndoReadsModel(x, c) {
    }
  }

  /** A composite of commands whose undo reads the model only has an undo that reads the model only. */
  lemma UndoLocalComposite(a: Cmd, b: Cmd)
    requires UndoLocal(a) && UndoLocal(b)
    ensures UndoLocal(CompositeCommand(a, b))
  {
    forall x: State ensures UndoReadsModel(x, CompositeCommand(a, b)) {
      UndoReadsModelComposite(x, a, b);
    }
  }

  lemma UndoReadsModelComposite(x: State, a: Cmd, b: Cmd)
    requires UndoLocal(a) && UndoLocal(b)
    ensures UndoReadsModel(x, CompositeCommand(a, b))
  {
    var y := Bare(x.model);
    ApplyUndoLocal(b, x, y);
    var ux, uy := Undo(x, b), Undo(y, b);
    if ux.failure.None? {
      UndoCompositeOk(x, a, b);
      UndoCompositeOk(y, a, b);
      ApplyUndoLocal(a, ux.state, uy.state);
    } else {
      UndoCompositeFails(x, a, b);
      UndoCompositeFails(y, a, b);
    }
  }

  /**
   * `CompositeCommand.Do` runs `first` then `second`, and a failing `first`
   * stops it before `second`; `Undo` runs `second`'s undo then `first`'s.
   */
  lemma CompositeOrder(s: State, a: Cmd, b: Cmd)
    ensures var d := Do(s, CompositeCommand(a, b));
      var d1 := Do(s, a);
      && (d1.failure.Some? ==> d.state == d1.state && d.failure == d1.failure)
      && (d1.failure.None? ==> d.state == Do(d1.state, b).state && d.failure == Do(d1.state, b).failure)
    ensures var u := Undo(s, CompositeCommand(a, b));
      var u2 := Undo(s, b);
      && (u2.failure.Some? ==> u.state == u2.state && u.failure == u2.failure)
      && (u2.failure.None? ==> u.state == Undo(u2.state, a).state && u.failure == Undo(u2.state, a).failure)
  {
    if Do(s, a).failure.Some? {
      DoCompositeFirstFails(s, a, b);
    } else {
      DoCompositeFirstOk(s, a, b);
    }
    if Undo(s, b).failure.Some? {
      UndoCompositeFails(s, a, b);
    } else {
      UndoCompositeOk(s, a, b);
    }
  }

  /**
   * If each part's `Undo` inverts its `Do` where it runs, and the first
   * part's undo reads the model only, the composite's `Undo` inverts the
   * composite's `Do`.
   */
  lemma CompositeRestores(s: State, a: Cmd, b: Cmd)
    requires Restores(s, a)
    requires Restores(Do(s, a).state, b)
    requires UndoLocal(Do(s, a).cmd)
    ensures Restores(s, CompositeCommand(a, b))
  {
    var d1 := Do(s, a);
    if d1.failure.Some? {
      DoCompositeFirstFails(s, a, b);
    } else {
      DoCompositeFirstOk(s, a, b);
      var d2 := Do(d1.state, b);
      if d2.failure.None? {
        var u2 := Undo(d2.state, d2.cmd);
        UndoCompositeOk(d2.state, d1.cmd, d2.cmd);
        ApplyUndoLocal(d1.cmd, u2.state, d1.state);
      }
    }
  }

  /** One unfolding of `Do` on a composite. */
  lemma DoCompositeUnfold(s: State, a: Cmd, b: Cmd)
    ensures Do(s, CompositeCommand(a, b)) == DoThen(Do(s, a), b)
  {
  }

  /** One unfolding of `Undo` on a composite. */
  lemma UndoCompositeUnfold(s: State, a: Cmd, b: Cmd)
    ensures Undo(s, CompositeCommand(a, b)) == UndoThen(Undo(s, b), a)
  {
  }

  /** The continuation of a composite's `Do` after a first part that did not fail. */
  lemma DoThenOk(r1: Run, b: Cmd)
    requires r1.failure.None?
    ensures var r2 := Do(r1.state, b);
      DoThen(r1, b) == CommandStack.Run(r2.state, CompositeCommand(r1.cmd, r2.cmd), r2.failure)
  {
  }

  /** The continuation of a composite's `Undo` after a second part that did not fail. */
  lemma UndoThenOk(r2: Run, a: Cmd)
    requires r2.failure.None?
    ensures var r1 := Undo(r2.state, a);
      UndoThen(r2, a) == CommandStack.Run(r1.state, CompositeCommand(r1.cmd, r2.cmd), r1.failure)
  {
  }

  /** `Do` of a composite whose first part fails stops there. */
  lemma DoCompositeFirstFails(s: State, a: Cmd, b: Cmd)
    requires Do(s, a).failure.Some?
    ensures var d1 := Do(s, a);
      Do(s, CompositeCommand(a, b)) == CommandStack.Run(d1.state, CompositeCommand(d1.cmd, b), d1.failure)
  {
    DoCompositeUnfold(s, a, b);
  }

  /** `Do` of a composite whose first part succeeds goes on with the second. */
  lemma DoCompositeFirstOk(s: State, a: Cmd, b: Cmd)
    requires Do(s, a).failure.None?
    ensures var d1 := Do(s, a); var d2 := Do(d1.state, b);
      Do(s, CompositeCommand(a, b)) == CommandStack.Run(d2.state, CompositeCommand(d1.cmd, d2.cmd), d2.failure)
  {
    DoCompositeUnfold(s, a, b);
    DoThenOk(Do(s, a), b);
  }

  /** One step of `Undo` on a composite whose second part undoes without failure. */
  lemma UndoCompositeOk(s: State, a: Cmd, b: Cmd)
    requires Undo(s, b).failure.None?
    ensures var u2 := Undo(s, b); var u1 := Undo(u2.state, a);
      Undo(s, CompositeCommand(a, b)) == CommandStack.Run(u1.state, CompositeCommand(u1.cmd, u2.cmd), u1.failure)
  {
    UndoCompositeUnfold(s, a, b);
    UndoThenOk(Undo(s, b), a);
  }

  /** `Undo` of a composite whose second part fails to undo stops there. */
  lemma UndoCompositeFails(s: State, a: Cmd, b: Cmd)
    requires Undo(s, b).failure.Some?
    ensures var u2 := Undo(s, b);
      Undo(s, CompositeCommand(a, b)) == CommandStack.Run(u2.state, CompositeCommand(a, u2.cmd), u2.failure)
  {
    UndoCompositeUnfold(s, a, b);
  }

  lemma ApplyUndoLocal(c: Cmd, x: State, y: State)
    requires UndoLocal(c) && x.model == y.model
    ensures Undo(x, c).failure == Undo(y, c).failure && Undo(x, c).state.model == Undo(y, c).state.model
  {
    assert UndoReadsModel(x, c) && UndoReadsModel(y, c);
  }

  /** With no pin command, connecting is exactly adding the edge. */
  lemma ConnectWithoutPin(s: State, addEdge: Cmd)
    ensures var d := Do(s, ConnectWithAutoPinCommand(None, addEdge));
      d.state == Do(s, addEdge).state && d.failure == Do(s, addEdge).failure
      && d.cmd == ConnectWithAutoPinCommand(None, Do(s, addEdge).cmd)
    ensures var u := Undo(s, ConnectWithAutoPinCommand(None, addEdge));
      u.state == Undo(s, addEdge).state && u.failure == Undo(s, addEdge).failure
  {
  }

  /** With a pin command, connecting does and undoes what the composite of the two does. */
  lemma ConnectIsComposite(s: State, ins: Cmd, addEdge: Cmd)
    ensures var d := Do(s, ConnectWithAutoPinCommand(Some(ins), addEdge));
      var k := Do(s, CompositeCommand(ins, addEdge));
      d.state == k.state && d.failure == k.failure
    ensures var u := Undo(s, ConnectWithAutoPinCommand(Some(ins), addEdge));
      var k := Undo(s, CompositeCommand(ins, addEdge));
      u.state == k.state && u.failure == k.failure
  {
  }

  /** If both parts are invertible, `Undo` after `Do` of a connection restores the model. */
  lemma ConnectRestores(s: State, ins: Cmd, addEdge: Cmd)
    requires Restores(s, ins)
    requires Restores(Do(s, ins).state, addEdge)
    requires UndoLocal(Do(s, ins).cmd)
    ensures Restores(s, ConnectWithAutoPinCommand(Some(ins), addEdge))
  {
    var d1 := Do(s, ins);
    if d1.failure.Some? {
      DoConnectPinFails(s, ins, addEdge);
    } else {
      DoConnectPinOk(s, ins, addEdge);
      var d2 := Do(d1.state, addEdge);
      if d2.failure.None? {
        var u2 := Undo(d2.state, d2.cmd);
        UndoConnectOk(d2.state, d1.cmd, d2.cmd);
        ApplyUndoLocal(d1.cmd, u2.state, d1.state);
      }
    }
  }

  /** One unfolding of `Do` on a connection with a pin command. */
  lemma DoConnectUnfold(s: State, ins: Cmd, addEdge: Cmd)
    ensures Do(s, ConnectWithAutoPinCommand(Some(ins), addEdge)) == DoConnectThen(Do(s, ins), addEdge)
  {
  }

  /** One unfolding of `Undo` on a connection with a pin command. */
  lemma UndoConnectUnfold(s: State, ins: Cmd, addEdge: Cmd)
    ensures Undo(s, ConnectWithAutoPinCommand(Some(ins), addEdge)) == UndoConnectThen(Undo(s, addEdge), ins)
  {
  }

  /** The continuation of a connection's `Do` after a pin command that did not fail. */
  lemma DoConnectThenOk(r1: Run, addEdge: Cmd)
    requires r1.failure.None?
    ensures var r2 := Do(r1.state, addEdge);
      DoConnectThen(r1, addEdge) == CommandStack.Run(r2.state, ConnectWithAutoPinCommand(Some(r1.cmd), r2.cmd), r2.failure)
  {
  }

  /** The continuation of a connection's `Undo` after an edge undo that did not fail. */
  lemma UndoConnectThenOk(r2: Run, ins: Cmd)
    requires r2.failure.None?
    ensures var r1 := Undo(r2.state, ins);
      UndoConnectThen(r2, ins) == CommandStack.Run(r1.state, ConnectWithAutoPinCommand(Some(r1.cmd), r2.cmd), r1.failure)
  {
  }

  /** `Do` of a connection whose pin insertion fails stops there. */
  lemma DoConnectPinFails(s: State, ins: Cmd, addEdge: Cmd)
    requires Do(s, ins).failure.Some?
    ensures var d1 := Do(s, ins);
      Do(s, ConnectWithAutoPinCommand(Some(ins), addEdge))
        == CommandStack.Run(d1.state, ConnectWithAutoPinCommand(Some(d1.cmd), addEdge), d1.failure)
  {
    DoConnectUnfold(s, ins, addEdge);
  }

  /** `Do` of a connection whose pin insertion succeeds goes on with the edge. */
  lemma DoConnectPinOk(s: State, ins: Cmd, addEdge: Cmd)
    requires Do(s, ins).failure.None?
    ensures var d1 := Do(s, ins); var d2 := Do(d1.state, addEdge);
      Do(s, ConnectWithAutoPinCommand(Some(ins), addEdge))
        == CommandStack.Run(d2.state, ConnectWithAutoPinCommand(Some(d1.cmd), d2.cmd), d2.failure)
  {
    DoConnectUnfold(s, ins, addEdge);
    DoConnectThenOk(Do(s, ins), addEdge);
  }

  /** One step of `Undo` on a connection whose edge undo succeeds. */
  lemma UndoConnectOk(s: State, ins: Cmd, addEdge: Cmd)
    requires Undo(s, addEdge).failure.None?
    ensures var u2 := Undo(s, addEdge); var u1 := Undo(u2.state, ins);
      Undo(s, ConnectWithAutoPinCommand(Some(ins), addEdge))
        == CommandStack.Run(u1.state, ConnectWithAutoPinCommand(Some(u1.cmd), u2.cmd), u1.failure)
  {
    UndoConnectUnfold(s, ins, addEdge);
    UndoConnectThenOk(Undo(s, addEdge), ins);
  }

  /**
   * Inserting a pin on a node and connecting an edge to existing nodes,
   * with a fresh counter and contiguous pins, is undone exactly.
   */
  lemma AutoPinConnectionRestores(s: State, node: Node, dir: Direction, index: int, addEdge: Cmd)
    requires node.id in s.model.nodes && Contiguous(Side(s.model.nodes[node.id], dir)) && PinIdsFresh(s)
    requires addEdge.AddEdgeCommand? && addEdge.sN in s.model.nodes && addEdge.tN in s.model.nodes
    ensures Restores(s, ConnectWithAutoPinCommand(Some(NewInsertPin(node, dir, index)), addEdge))
  {
    var ins := NewInsertPin(node, dir, index);
    InsertPinRestores(s, ins);
    var d1 := Do(s, ins);
    AddEdgeRestores(d1.state, addEdge);
    UndoLocalSimple(d1.cmd);
    ConnectRestores(s, ins, addEdge);
  }

  // --------------------------------------------------------------- history

  /** Executing an invertible command and undoing it through the history gives back the model. */
  lemma ExecThenUndoRestores(h: CommandStack.History<Cmd>, s: State, c: Cmd)
    requires Restores(s, c) && Do(s, c).failure.None?
    ensures var e := CommandStack.Exec(h, s, c, Do);
      var u := CommandStack.Undo(e.history, e.state, Undo);
      && u.failure.None? && u.state.model == s.model
      && u.history.undo == h.undo && CommandStack.CanRedo(u.history)
  {
    RestoresInverts(s, c);
    CommandStack.ExecThenUndo(h, s, c, Do, Undo, ModelOf);
  }

  /** A move on top of the history is put back exactly by `Undo` then `Redo`: both stacks are restored. */
  lemma MoveUndoRedoExact(h: CommandStack.History<Cmd>, s: State)
    requires CommandStack.CanUndo(h) && h.undo[|h.undo| - 1].MoveNodeCommand?
    ensures var u := CommandStack.Undo(h, s, Undo);
      var r := CommandStack.Redo(u.history, u.state, Do);
      u.failure.None? && r.failure.None? && r.history == h
  {
    CommandStack.UndoThenRedo(h, s, Do, Undo);
  }
}
