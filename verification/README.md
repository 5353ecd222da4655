# DirectedGraphCore in Dafny

A Dafny model of the core of DirectedGraphCore, the library behind a desktop
directed-graph editor. It covers:

- **Graph model.** A `GraphModel` holds `GraphNode`s under their ids and
  `GraphEdge`s under their ids. Each node carries two ordered, contiguously
  indexed lists of `NodePin`s: its inputs and its outputs. An edge joins a
  (node, pin) pair to another (node, pin) pair.
- **Controller.** `GraphController` adds and removes nodes and edges, keeps a
  selection, moves the selected nodes and reloads the model from a file or from
  another model. Each of these raises change events, modelled as an event log.
- **Undoable commands.** These are moving a node (drag moves merge into one),
  adding an edge, removing an edge, inserting a pin, a composite of two commands
  and "connect with an auto-inserted pin". `CommandStack` keeps their undo and
  redo history.
- **DGML persistence.** A model is saved as a structure file (`.dgml`: nodes and
  links) plus a layout overlay (`.dgml-layout`: positions, sizes and pins).
  Loading reads both back, then gives pins to nodes that have none. Companion
  paths are derived by `GraphPersistence`.
- **Older model variants** still in the library:
  - the slot-connection graph of `DirectedGraph.cs`;
  - the keyed graph of `DirectedGraph/GraphModel.cs`, whose edge ids are
    built from the endpoint ids;
  - the simple node/edge graph of `DirectedGraph/DirectedGraph.cs` with its own
    DGML serializer.
- **Helpers:** the geometry primitives and `DictionaryExtensions.AddRange`.

## How the C# is represented

- **Classes are values.** Classes become immutable datatypes. A mutating method
  becomes a function from the old state to the new one. When an exception can
  escape after part of the work is done, the function returns the state reached
  together with the error. Otherwise it returns a `Result`.
- **Reference identity.** Where the source relies on reference identity, the
  model uses ids (main model) or explicit handles (the slot graph).
  - In the slot graph, nodes, slots and connections each carry a handle.
    `Connect` takes the handle of each new connection from a counter in the
    model, so `Disconnect` removes a listed connection only when given that
    very object. A connection the caller builds itself joining the same slots
    is not removed (`SlotGraph.DisconnectStrangerKeeps`).
  - In the main model, a node is known by its id and not by its object. The
    move command (`TryMergeWith`, UndoCommands.cs:52-62), the insert-pin
    command (Commands/InsertPinCommand.cs:7 and 17-28, and its copy at
    UndoCommands.cs:127-148) and the controller's selection hold node
    objects. Suppose a node is removed and a new node is added under the same
    id. In the source, a move command made for the old node neither merges
    with moves of the new node nor moves it. In the model, it does both.
    Likewise, an insert-pin command made for the old node changes the old,
    detached object in the source, but the new node in the model. While no
    node with its id is stored, the model's insert-pin does nothing.
- **Dictionary order.** The order in which a `Dictionary` or `HashSet` is
  enumerated is not specified. Each operation that enumerates one has a
  function taking the order as a parameter (the `...In` variants). The matching
  method picks some enumeration with `Enumeration.Enumerate`. Its contract says
  that the result is that function's value for some enumeration of the keys.
- **Fresh ids.** `Guid.NewGuid().ToString("N")` becomes `Ids.MintId(n)`, drawn
  from a counter held in the controller state. Distinct counters give distinct
  ids, and no minted id contains '-'.
- **Floats.** `float` and `double` are `real`.
- **Number text.** A `NumberFormat` writes and reads the numbers of the
  overlay. No codec can read every real back from text, so `Dgml.Faithful`
  names the values a codec reads back exactly. For .NET's `float.ToString`
  and `float.Parse` these are the `float` values. The DGML round trip
  (`DgmlRoundTrip.SaveThenLoad`) holds for models whose positions and layout
  sizes lie in that set. `DgmlRoundTrip.FixedPointFaithful` shows that such
  codecs exist.
- **Number text.** Culture-dependent number formatting and parsing is a
  parameter, `Dgml.NumberFormat`.
- **Files.** The file system is a map from paths to XML element trees.
- **Commands.** A command is one value of the datatype `Commands.Cmd`. Running
  `Do` or `Undo` returns a `CommandStack.Run`: the new state, the command as it
  now is (commands record the edge or pin their `Do` created), and any
  exception that escaped.

### Where the model follows the code as written

- **Keyed edges in `Models/GraphModel.cs`.** `FindOrAddEdge` there calls
  `new GraphEdge(source, target)` and `GraphEdge.BuildId`. `Models/GraphEdge.cs`
  has neither; only the older `DirectedGraph/GraphEdge.cs` does. The model keys
  the new edge by `source + "-" + target` (`Graphs.EdgeKey`, which is `BuildId`)
  and builds it with `GraphEdge.Create` with empty pin ids.
- **`GraphController.AddEdge` signature.** It is declared with integer slots.
  Both add-edge commands call it with four strings (node and pin ids). The model
  uses the four-string form.
- **`SetNodePosition`.** The move command calls `SetNodePosition`, which the
  controller does not declare. It is modelled as "set the node's position and
  raise `NodeMoved`", and as a no-op for an unknown id.
- **`RemoveNode`.** It does not remove edges at the node, so edges can be left
  dangling (`Controller.RemoveNodeKeepsIncidentEdges`).
- **The string-id `AddEdgeCommand` nested in `UndoCommands`.** Its constructors
  test the field they are about to assign, which is always null, and return.
  The command never holds a controller, so its `Do` and `Undo` do nothing. This
  is a finding below.
- **`RemoveEdgeCommand.Undo`.** It re-adds an edge between the snapshot's
  endpoints under a fresh id and keeps the old snapshot. `Commands.Undo` does
  the same. The undo that keeps the re-added edge is modelled beside it as
  `Commands.UndoRemoveEdgeCorrected`; this is a finding below.
- **Two position types.** `GraphController.AddNode` (GraphController.cs:27-33)
  and `MoveSelectedBy` (GraphController.cs:83-91) assign a `GraphPosition` to
  `GraphNode.Position`, which is a `Point3` (Models/GraphNode.cs:23-24). The
  library has no conversion between the two. The model treats both as one
  point type, `Geometry.Point3`.
- **The legacy `DgmlSerializer.cs`.** `Save` writes `edge.SourceId` and
  `edge.TargetId`, but no edge class in the library has those properties. The
  model writes `SourceNodeId` and `TargetNodeId` of the `Edge` class in
  `DirectedGraph/DirectedGraph.cs` (lines 101-105). Those are the properties
  the library's serializer test reads back. The serializer's `GraphModel` is
  taken to be that file's graph: `Nodes` keyed by id and `Edges` a list.

## Model

| member | source | states |
|---|---|---|
| CommandStack.NewHistory | DirectedGraphCore/Commands/CommandStack.cs:5-9 | a new stack can neither undo nor redo |
| CommandStack.Exec | DirectedGraphCore/Commands/CommandStack.cs:11-16 | runs `Do`; on success the updated command is on top of the undo stack, the rest of the undo stack is unchanged and the redo stack is empty; when `Do` throws, both stacks are untouched |
| CommandStack.Undo | DirectedGraphCore/Commands/CommandStack.cs:18-24 | with an empty undo stack nothing happens; otherwise the top is popped and undone and lands on the redo stack, or on neither stack when `Undo` throws |
| CommandStack.Redo | DirectedGraphCore/Commands/CommandStack.cs:26-32 | the mirror image: with an empty redo stack nothing happens; otherwise the top is popped, re-done and pushed back on the undo stack |
| CommandStack.UndoRedoKeepSize | DirectedGraphCore/Commands/CommandStack.cs:18-32 | a successful undo or redo moves one command between the stacks and keeps the total; a failed one loses exactly that command |
| CommandStack.UndoThenRedo | DirectedGraphCore/Commands/CommandStack.cs:18-32 | undo followed by redo leaves the redo stack as before and the same command on top of the undo stack; both stacks are restored exactly when redoing gives the command back unchanged |
| CommandStack.RedoThenUndo | DirectedGraphCore/Commands/CommandStack.cs:18-32 | redo followed by undo restores the undo stack, and both stacks when the command comes back unchanged |
| CommandStack.ExecThenUndo | DirectedGraphCore/Commands/CommandStack.cs:11-24 | executing a command whose undo inverts its do, then undoing, returns to the prior state with the undo stack as before and the command alone on the redo stack |
| Commands.NewMoveNode | DirectedGraphCore/Commands/UndoCommands.cs:23-32 | the command records the node's id, its current position as the old position, and the target position |
| Commands.NewAddEdge | DirectedGraphCore/Commands/AddEdgeCommand.cs:12-16 | without a controller the constructor throws `ArgumentNullException("ctl")`; otherwise it captures the four endpoint ids and holds no edge yet |
| Commands.NewNestedAddEdgeAsWritten | DirectedGraphCore/Commands/UndoCommands.cs:70-86 | the constructors as written never build a working add-edge command, whatever controller is passed |
| Commands.NewRemoveEdge | DirectedGraphCore/Commands/RemoveEdgeCommand.cs:13-18 | the command keeps the given edge as its snapshot |
| Commands.NewInsertPin | DirectedGraphCore/Commands/InsertPinCommand.cs:12-13 | the command records node, side and index and has created no pin yet |
| Commands.TryMergeWith | DirectedGraphCore/Commands/UndoCommands.cs:52-62 | a move merges exactly when the other command is a move of the same node; the merged command keeps its old position and takes the other's new one; a refused merge changes nothing |
| Commands.MergeAllOfOneNode | DirectedGraphCore/Commands/UndoCommands.cs:20-21 | merging every move of a drag keeps the position from before the drag and takes the last move's target |
| Commands.MoveNodeRestores | DirectedGraphCore/Commands/UndoCommands.cs:34-46 | `Do` puts the node at the new position and never fails; `Undo` gives back the model |
| Commands.MergedDragRestores | DirectedGraphCore/Commands/UndoCommands.cs:13-63 | a drag whose first move is built from the node, with every later move of that node merged into it, leaves the node at the last target, and one undo returns the model to before the drag |
| Commands.AddEdgeUndoBeforeDo | DirectedGraphCore/Commands/AddEdgeCommand.cs:21 | undoing an add-edge command that has not run does nothing |
| Commands.AddEdgeDoThenUndo | DirectedGraphCore/Commands/AddEdgeCommand.cs:20-21 | `Do` records the edge the controller returned; `Undo` removes it, so the edge map is as before and only the endpoint nodes `AddEdge` created remain |
| Commands.AddEdgeRestores | DirectedGraphCore/Commands/AddEdgeCommand.cs:20-21 | when both endpoint nodes exist, adding an edge is undone exactly |
| Commands.NestedAddEdgeInert | DirectedGraphCore/Commands/UndoCommands.cs:70-96 | the nested command as written does nothing on `Do` or `Undo`, while the intended command adds an edge |
| Commands.UndoRemoveEdgeCorrected | DirectedGraphCore/Commands/UndoCommands.cs:118-122 | the intended undo leaves the same state and outcome as the undo as written, but keeps the re-added edge, which is in the model, as the new snapshot |
| Commands.RemoveEdgeDoThenUndo | DirectedGraphCore/Commands/RemoveEdgeCommand.cs:20-30 | `Do` removes the snapshot's id; `Undo` re-adds an edge between the same endpoint pins under a fresh id, so the edge map differs from the original only in that edge's id, and keeps the old snapshot |
| Commands.RemoveEdgeRedoRemoves | DirectedGraphCore/Commands/UndoCommands.cs:112-122 | with the corrected undo the re-added edge is the snapshot, so a redo removes it again, giving the edge map the first `Do` left |
| Commands.RemoveEdgeRedoKeepsRecreatedAsWritten | DirectedGraphCore/Commands/UndoCommands.cs:112-122 | as written, a redo after undo removes only the original id, so the recreated edge survives |
| Commands.Do | DirectedGraphCore/Commands/UndoCommands.cs:34-186 | no command changes the selection or the file path, and the id counter only grows; the only exception that escapes is a duplicate key from adding an edge; a move, a remove-edge and the detached add-edge never fail and keep their command; a remove-edge removes exactly the snapshot's id; an add-edge that succeeds records the edge it stored, and one that fails keeps its command and the edges; an insert-pin never fails and only records its pin; composites keep their shape |
| Commands.Undo | DirectedGraphCore/Commands/UndoCommands.cs:41-186 | the same frame and the same one exception; undoing a move, an add-edge, the detached add-edge or an insert-pin never fails and keeps the command; undoing a remove-edge keeps the old snapshot; undoing an add-edge that stored no edge changes nothing, and otherwise removes exactly that edge's id; composites keep their shape |
| Commands.InsertPinUndoBeforeDo | DirectedGraphCore/Commands/InsertPinCommand.cs:24-28 | undoing an insert-pin command that has not run does nothing |
| Commands.InsertPinDoes | DirectedGraphCore/Commands/InsertPinCommand.cs:17-22 | `Do` inserts one pin with a fresh id at the index clamped into the chosen side and records it; the side stays contiguous, and the other side, the other nodes and the edges are untouched |
| Commands.InsertPinRestores | DirectedGraphCore/Commands/InsertPinCommand.cs:17-28 | on a contiguously indexed side, undo removes exactly the recorded pin and gives back the model |
| Commands.InsertPinUndoesInsert | DirectedGraphCore/Commands/UndoCommands.cs:137-148 | the node-level step: removing the inserted pin restores the node and so the model |
| Commands.UndoLocalSimple | DirectedGraphCore/Commands/UndoCommands.cs:41-46 | what undoing a move, an add-edge or an insert-pin does depends only on the model, not on selection, events or the id counter |
| Commands.UndoLocalComposite | DirectedGraphCore/Commands/CompositeCommand.cs:12 | a composite of two such commands is undone the same way |
| Commands.CompositeOrder | DirectedGraphCore/Commands/CompositeCommand.cs:11-12 | `Do` runs the first command, then the second unless the first threw; `Undo` runs the second's undo, then the first's unless the second threw |
| Commands.CompositeRestores | DirectedGraphCore/Commands/CompositeCommand.cs:11-12 | if each part is undone exactly, so is the composite, undoing in reverse order |
| Commands.ConnectWithoutPin | DirectedGraphCore/Commands/ConnectWithAutoPinCommand.cs:19-29 | with no pin to insert, the connect command is its add-edge command |
| Commands.ConnectIsComposite | DirectedGraphCore/Commands/ConnectWithAutoPinCommand.cs:19-29 | with a pin to insert, the connect command behaves as the composite of insert-pin then add-edge |
| Commands.ConnectRestores | DirectedGraphCore/Commands/ConnectWithAutoPinCommand.cs:19-29 | if both parts are undone exactly, so is the connect command |
| Commands.AutoPinConnectionRestores | DirectedGraphCore/Commands/UndoCommands.cs:164-186 | inserting a pin and connecting an edge between existing nodes is undone exactly by one undo |
| Commands.ExecThenUndoRestores | DirectedGraphCore/Commands/CommandStack.cs:11-24 | executing any command that restores on undo and then undoing gives back the model, with the undo stack as before |
| Commands.MoveUndoRedoExact | DirectedGraphCore/Commands/CommandStack.cs:18-32 | with a move on top, undo then redo restores both stacks exactly |
| Commands.RestoresInverts | DirectedGraphCore/Commands/CommandStack.cs:11-24 | "undo gives back the model" is the history's inversion property seen through the model |
| Controller.AddNode | DirectedGraphCore/Controllers/GraphController.cs:28-34 | fails with a duplicate-key error exactly when the id is taken; otherwise adds one node with no pins and no size, touches nothing else and raises `NodeAdded` |
| Controller.RemoveNode | DirectedGraphCore/Controllers/GraphController.cs:36-43 | removes the node and deselects it, raising `SelectionChanged` only when it was selected, then `NodeRemoved`; the edges are untouched |
| Controller.AddNodeThenRemoveNode | DirectedGraphCore/Controllers/GraphController.cs:28-43 | adding a new node and removing it gives back the model |
| Controller.RemoveNodeKeepsIncidentEdges | DirectedGraphCore/Controllers/GraphController.cs:36-43 | an edge at a removed node stays, and now has a missing endpoint |
| Controller.AddEdge | DirectedGraphCore/Controllers/GraphController.cs:48-56 | finds or adds both endpoint nodes, then stores an edge under a fresh id with the given endpoints and raises `EdgeAdded`; a clash with an existing id fails with a duplicate key, after the nodes were added |
| Controller.RemoveEdge | DirectedGraphCore/Controllers/GraphController.cs:58-62 | removes the edge's id only and raises `EdgeRemoved` |
| Controller.AddEdgeWhenFresh | DirectedGraphCore/Controllers/GraphController.cs:48-56 | while minted ids are fresh, adding an edge always succeeds and keeps them fresh |
| Controller.AddEdgeThenRemoveEdge | DirectedGraphCore/Controllers/GraphController.cs:48-62 | adding an edge and removing it gives back the edge map |
| Controller.SelectNode | DirectedGraphCore/Controllers/GraphController.cs:65-72 | single select makes the node the whole selection; multi-select adds it; `SelectionChanged` is raised unless the multi-selected node was already selected |
| Controller.SelectionInModelKept | DirectedGraphCore/Controllers/GraphController.cs:28-79 | adding and removing nodes and edges, moving a node and clearing the selection keep every selected id in the model; selecting keeps it exactly when the id is a node of the model |
| Controller.ClearSelection | DirectedGraphCore/Controllers/GraphController.cs:74-79 | empties the selection, raising `SelectionChanged` only if it was not empty |
| Controller.SelectNodeIdempotent | DirectedGraphCore/Controllers/GraphController.cs:65-72 | selecting a selected node again changes nothing |
| Controller.SelectNodeFromEmpty | DirectedGraphCore/Controllers/GraphController.cs:65-72 | from an empty selection, single and multi select agree |
| Controller.ClearSelectionIdempotent | DirectedGraphCore/Controllers/GraphController.cs:74-79 | clearing twice is clearing once |
| Controller.Shifted | DirectedGraphCore/Controllers/GraphController.cs:86-88 | the new position differs from the old by the delta in x and y and has z = 0 |
| Controller.SetNodePosition | DirectedGraphCore/Commands/UndoCommands.cs:34-46 | moves exactly one node and raises `NodeMoved`; an unknown id changes nothing |
| Controller.SetNodePositionRestores | DirectedGraphCore/Commands/UndoCommands.cs:34-46 | setting a position and then the old one gives back the model |
| Controller.SetNodePositionTwice | DirectedGraphCore/Commands/UndoCommands.cs:34-46 | the later of two position updates wins |
| Controller.MoveSelectedByInMoves | DirectedGraphCore/Controllers/GraphController.cs:82-91 | in any order, every selected node still in the model is shifted by the delta exactly once |
| Controller.MoveSelectedByInEvents | DirectedGraphCore/Controllers/GraphController.cs:82-91 | one `NodeMoved` is raised per moved node, in enumeration order |
| Controller.MoveSelectedBy | DirectedGraphCore/Controllers/GraphController.cs:82-91 | selected nodes of the model are shifted by the delta, every other node and everything else is unchanged, and the events name the moved nodes; when every selected id is in the model, every selected node is moved and announced, one event each |
| Controller.AnnounceShape | DirectedGraphCore/Controllers/GraphController.cs:127-139 | the announcement lists exactly one event per node, all node events first, then one per edge, each naming an item of the model |
| Controller.AnnounceComplete | DirectedGraphCore/Controllers/GraphController.cs:127-139 | every node and every edge of the model is announced |
| Controller.ReloadFromIn | DirectedGraphCore/Controllers/GraphController.cs:124-140 | the model takes the source's nodes and edges and keeps its file path; the selection is cleared; events say the old items were removed, then the selection changed if it was not empty, then the new items were added |
| Controller.ReloadFromTwice | DirectedGraphCore/Controllers/GraphController.cs:124-140 | reloading the same source twice leaves the same model and announces its contents removed and re-added |
| Controller.ReloadFrom | DirectedGraphCore/Controllers/GraphController.cs:124-140 | the reload for some enumeration order of both dictionaries |
| Controller.ReloadFromFileIn | DirectedGraphCore/Controllers/GraphController.cs:96-122 | events are bracketed by `GraphReset` and `GraphResetCompleted`; a failed load is reported with the path, keeps model and selection, and announces only the removals; a successful one reloads from the file's model |
| Controller.ReloadFromFile | DirectedGraphCore/Controllers/GraphController.cs:96-122 | a missing file or a failed load is reported and leaves model and selection; a successful load replaces the edges with the loaded ones, and the nodes with the loaded ones (without an overlay) or with them after their missing pins are completed (with one), and clears the selection |
| Dgml.Attr | DirectedGraphCore/Models/DgmlSerializer.cs:120-121 | an attribute is read exactly when it is present |
| Dgml.FirstNamed | DirectedGraphCore/Models/DgmlSerializer.cs:112 | the first child with the name (so the only one when it is the first), or none exactly when no child has it |
| Dgml.Named | DirectedGraphCore/Models/DgmlSerializer.cs:118 | the children with the name, a sub-list of the children |
| Dgml.ParseReal | DirectedGraphCore/Models/DgmlSerializer.cs:192-200 | parsing succeeds exactly when the number format accepts the text; otherwise it fails naming the text |
| Dgml.ParseInt | DirectedGraphCore/Models/DgmlSerializer.cs:219-220 | the same for integers |
| DgmlSerializer.LayoutPath | DirectedGraphCore/Models/DgmlSerializer.cs:65 | the overlay path is the structure path with its extension replaced by ".dgml-layout" |
| DgmlSerializer.StructureDocument | DirectedGraphCore/Models/DgmlSerializer.cs:18-53 | the structure file has a Node per node with its id and name as label, and a Link per edge naming its endpoint nodes, in enumeration order |
| DgmlSerializer.LayoutSize | DirectedGraphCore/Models/DgmlSerializer.cs:77 | the size written is the first input pin's, or zero without inputs |
| DgmlSerializer.LayoutNodeElement | DirectedGraphCore/Models/DgmlSerializer.cs:72-92 | an overlay Node records id, position, size and one Pin per pin, inputs first |
| DgmlSerializer.SaveIn | DirectedGraphCore/Models/DgmlSerializer.cs:18-99 | saving writes the structure file and the overlay, and no other file changes |
| DgmlSerializer.SaveAsDgml | DirectedGraphCore/Models/GraphModel.cs:85-88 | the save for some enumeration of nodes and edges |
| DgmlSerializer.BoundsSize | DirectedGraphCore/Models/DgmlSerializer.cs:127-137 | a Bounds value is usable exactly when it has at least four comma-separated parts and the first four parse; it then gives the size (w, h, 0) |
| DgmlSerializer.LoadNode | DirectedGraphCore/Models/DgmlSerializer.cs:118-147 | a blank id is skipped; otherwise the node is found or added; a usable Bounds appends an input pin of index 0, with a fresh id and the bounds' size, and sets neither the node's position nor its size |
| DgmlSerializer.LoadNodes | DirectedGraphCore/Models/DgmlSerializer.cs:118-147 | loading nodes keeps existing nodes and touches no edge |
| DgmlSerializer.LoadLinks | DirectedGraphCore/Models/DgmlSerializer.cs:150-162 | loading links keeps every existing node and edge and the file path, and a list without a usable link (both endpoints non-blank) changes nothing |
| DgmlSerializer.LoadStructure | DirectedGraphCore/Models/DgmlSerializer.cs:105-162 | a missing file fails with file-not-found, a file without Nodes fails, any other file loads |
| DgmlSerializer.ParseTriple | DirectedGraphCore/Models/DgmlSerializer.cs:195-200 | accepted exactly when there are at least two comma-separated parts and the first two, and a third if present, parse; the result is those numbers, with z 0 when there is no third part |
| DgmlSerializer.WithLayoutPosition | DirectedGraphCore/Models/DgmlSerializer.cs:192-200 | only the position changes, and an absent or empty Position changes nothing |
| DgmlSerializer.WithLayoutSize | DirectedGraphCore/Models/DgmlSerializer.cs:203-211 | only the size changes, and an absent or empty Size changes nothing |
| DgmlSerializer.AddLayoutPins | DirectedGraphCore/Models/DgmlSerializer.cs:214-230 | each Pin element appends one pin, keeping the node's existing pins as prefixes of its sides and its other fields, and uses one fresh id |
| DgmlSerializer.ApplyLayoutNode | DirectedGraphCore/Models/DgmlSerializer.cs:184-231 | an overlay entry for an unknown id changes nothing; otherwise only that node changes, keeping its id |
| DgmlSerializer.ApplyLayout | DirectedGraphCore/Models/DgmlSerializer.cs:174-231 | applying the overlay keeps the node ids, the edges and the file path |
| DgmlSerializer.LoadBeforePins | DirectedGraphCore/Models/DgmlSerializer.cs:105-232 | structure errors are passed on unchanged, and without an overlay file the loaded structure is the result; node ids stay the keys they are stored under, and the id counter only grows |
| DgmlSerializer.FreshPins | DirectedGraphCore/Models/DgmlSerializer.cs:237-248 | the completed pins are numbered 0 to count-1 with fresh ids |
| DgmlSerializer.CompleteNodePins | DirectedGraphCore/Models/DgmlSerializer.cs:235-249 | a side that has pins keeps them; an empty side gets one pin per incoming (or outgoing) edge |
| DgmlSerializer.AddMissingPins | DirectedGraphCore/Models/DgmlSerializer.cs:235-249 | every node is completed this way, with ids, edges and file path kept |
| DgmlSerializer.LoadFromDgml | DirectedGraphCore/Models/DgmlSerializer.cs:105-252 | a load fails exactly when the structure or overlay does; without an overlay the structure is the result; with one, every node's pins are completed |
| DgmlRoundTrip.LoadSavedStructure | DirectedGraphCore/Models/DgmlSerializer.cs:18-53 | the saved structure reads back as the saved node ids, each named by its id, and the saved edge pairs |
| DgmlRoundTrip.ParseFormatTriple | DirectedGraphCore/Models/DgmlSerializer.cs:192-211 | three numbers the codec reads back exactly, written as the overlay writes them, parse back as the same three numbers |
| DgmlRoundTrip.FixedPointFaithful | DirectedGraphCore/Models/DgmlSerializer.cs:82-83 | the condition the round trip puts on number text can be met: a fixed-point codec reads back every multiple of `1/scale` and writes no ',' |
| DgmlRoundTrip.ReadBack | DirectedGraphCore/Models/DgmlSerializer.cs:174-231 | for a codec that reads the saved positions and sizes back exactly, the saved overlay applied to the reloaded nodes restores each node's position, its size as saved, and its number of pins of each direction |
| DgmlRoundTrip.SaveThenLoad | DirectedGraphCore/Models/DgmlSerializer.cs:18-231 | for a codec that reads the saved positions and sizes back exactly, saving and loading back gives the same node ids and edge pairs, every node with its position, size and pin counts, in whatever order the save enumerated |
| Dictionaries.AddRange | DirectedGraphCore/Models/Extensions.cs:3-8 | the keys become the old keys plus the pairs' keys, and keys not in the pairs keep their values |
| Dictionaries.AddRangeLastWins | DirectedGraphCore/Models/Extensions.cs:7 | a repeated key ends with the value of its last pair |
| Dictionaries.CopyAllIntoEmpty | DirectedGraphCore/Models/GraphModel.cs:45-50 | copying every entry of a dictionary, in any order, into an emptied one rebuilds it |
| Enumeration.Enumerate | DirectedGraphCore/Models/GraphModel.cs:47-50 | dictionary enumeration lists every key exactly once |
| Geometry.MakePoint3 | DirectedGraphCore/Geometry/Primitives.cs:22 | z defaults to 0 |
| Geometry.MakeVector3 | DirectedGraphCore/Geometry/Primitives.cs:51 | z defaults to 0 |
| Geometry.MakeSize3 | DirectedGraphCore/Geometry/Primitives.cs:75 | depth defaults to 0 |
| Geometry.TranslateBetween2 | DirectedGraphCore/Geometry/Primitives.cs:11-12 | moving a point by the difference to another point lands on that point, in exact arithmetic |
| Geometry.TranslateBetween3 | DirectedGraphCore/Geometry/Primitives.cs:24-25 | `(p + v) - p == v` and `p + (q - p) == q`, in exact arithmetic |
| Geometry.SubVector3UndoesAdd | DirectedGraphCore/Geometry/Primitives.cs:55-56 | corrected subtraction undoes addition, in exact arithmetic |
| Geometry.SubVector3AsWrittenBreaksUndo | DirectedGraphCore/Geometry/Primitives.cs:56 | subtraction as written does not undo addition whenever z is non-zero, in exact arithmetic |
| Geometry.SubVector3AsWrittenWitness | DirectedGraphCore/Geometry/Primitives.cs:56 | <0,0,1> - <0,0,1> is <0,0,2> as written |
| Geometry.DivideUndoesScale | DirectedGraphCore/Geometry/Primitives.cs:42-43 | dividing by a non-zero factor undoes scaling by it, in two and three dimensions, in exact arithmetic |
| Edges.DefaultEdge | DirectedGraphCore/Models/GraphEdge.cs:4-10 | a new edge has the freshly minted id it is given and empty endpoint ids |
| Edges.Create | DirectedGraphCore/Models/GraphEdge.cs:12-13 | `Create` stores the four endpoint ids |
| Edges.CreateFreshIds | DirectedGraphCore/Models/GraphEdge.cs:4 | two created edges get different ids, even with the same endpoints |
| Graphs.FindOrAddNode | DirectedGraphCore/Models/GraphModel.cs:55-64 | the stored node if there is one; otherwise exactly one node named `name ?? id` is added |
| Graphs.FindOrAddNodeIdempotent | DirectedGraphCore/Models/GraphModel.cs:55-64 | finding or adding twice is doing it once |
| Graphs.EdgeKey | DirectedGraphCore/DirectedGraph/GraphEdge.cs:56 | the key is the source id, '-', then the target id |
| Graphs.EdgeKeyInjective | DirectedGraphCore/DirectedGraph/GraphEdge.cs:56 | for source ids without '-', equal keys mean equal id pairs, and conversely |
| Graphs.FindOrAddEdge | DirectedGraphCore/Models/GraphModel.cs:70-83 | both endpoint nodes exist afterwards; the edge under the key is returned, and is added only when missing |
| Graphs.FindOrAddEdgeIdempotent | DirectedGraphCore/Models/GraphModel.cs:70-83 | asking twice for the same pair stores no second edge |
| Graphs.ResetFromIn | DirectedGraphCore/Models/GraphModel.cs:43-51 | a reset takes the source's nodes and edges and keeps the file path |
| Graphs.ResetFrom | DirectedGraphCore/Models/GraphModel.cs:43-51 | the same, for some enumeration order |
| Ids.MintId | DirectedGraphCore/Models/NodePin.cs:11 | a minted id is at least 32 digits and has no '-' |
| Ids.MintIdInjective | DirectedGraphCore/Models/GraphEdge.cs:4 | distinct counters give distinct ids |
| Text.ParseFormatFixed | DirectedGraphCore/Models/NodePin.cs:32 | the "000" index format loses nothing |
| Text.SplitJoin | DirectedGraphCore/Models/DgmlSerializer.cs:195 | splitting a comma-join of comma-free parts gives the parts back |
| Text.JoinSplit | DirectedGraphCore/Models/DgmlSerializer.cs:195 | joining the parts of a split gives the text back |
| Pins.NewPin | DirectedGraphCore/Models/NodePin.cs:37-43 | a new pin has the given index, direction and node, capacity 1, no label and the default size |
| Pins.ParseSideLabelRoundTrip | DirectedGraphCore/Models/NodePin.cs:32 | a display id gives back its direction and index |
| Pins.SideLabelInjective | DirectedGraphCore/Models/NodePin.cs:32 | display ids are equal exactly when direction and index are |
| Pins.DisplayIdShape | DirectedGraphCore/Models/NodePin.cs:32 | "In-" or "Out-" followed by at least three characters, and exactly three for an index below 1000 |
| Pins.ReindexKeepsIdentity | DirectedGraphCore/Models/NodePin.cs:11-17 | changing the index keeps the pin's id, direction and node, and changes its display id exactly when the index changes |
| Pins.NewSlot | DirectedGraphCore/Models/GraphSlot.cs:37-42 | a new slot has the given index, direction and owner, at the origin with the default size |
| Pins.SlotIdDetermined | DirectedGraphCore/Models/GraphSlot.cs:11-18 | a slot id names its direction and current index and nothing else |
| Nodes.NewNode | DirectedGraphCore/Models/GraphNode.cs:38-43 | a new node has no pins, no size and sits at the origin |
| Nodes.WithSide | DirectedGraphCore/Models/GraphNode.cs:33-36 | replacing one side leaves the other side and the node's other fields |
| Nodes.Reindex | DirectedGraphCore/Models/GraphNode.cs:126-130 | after reindexing each pin's index is its position; the pins and their order are otherwise the same; a contiguous list is unchanged |
| Nodes.Clamp | DirectedGraphCore/Models/GraphNode.cs:132-133 | the value limited to [min, max] |
| Nodes.IndexOfId | DirectedGraphCore/Models/GraphNode.cs:110-116 | the position of the first pin with the id, or none exactly when no pin has it |
| Nodes.Append | DirectedGraphCore/Models/GraphNode.cs:50-71 | adding a pin appends it with index equal to the old side length, keeps the side contiguous and leaves the other side |
| Nodes.AddInput | DirectedGraphCore/Models/GraphNode.cs:50-59 | an input pin is appended with the next index |
| Nodes.AddOutput | DirectedGraphCore/Models/GraphNode.cs:62-71 | an output pin is appended with the next index |
| Nodes.Insert | DirectedGraphCore/Models/GraphNode.cs:74-91 | the pin goes in at the clamped index, the ids around it keep their order, and the side is renumbered contiguously |
| Nodes.InsertInput | DirectedGraphCore/Models/GraphNode.cs:74-81 | the same, on the inputs |
| Nodes.InsertOutput | DirectedGraphCore/Models/GraphNode.cs:84-91 | the same, on the outputs |
| Nodes.RemovePin | DirectedGraphCore/Models/GraphNode.cs:94-107 | succeeds exactly when a pin with that id is on the side its direction names; then the side is one shorter and renumbered, and nothing else changes |
| Nodes.FindPin | DirectedGraphCore/Models/GraphNode.cs:110-112 | found exactly when some pin has the id; an input wins over an output |
| Nodes.AllPins | DirectedGraphCore/Models/GraphNode.cs:119-120 | the inputs followed by the outputs |
| Nodes.FindPinAgrees | DirectedGraphCore/Models/GraphNode.cs:110-116 | `FindPin` and `FindPinById` always agree |
| Nodes.InsertThenRemove | DirectedGraphCore/Models/GraphNode.cs:74-107 | on a contiguous side, removing a just-inserted pin gives back the node |
| Nodes.InsertKeepsIdsUnique | DirectedGraphCore/Models/GraphNode.cs:74-91 | inserting a pin with a new id keeps the node's pin ids distinct |
| Paths.ChangeExtension | DirectedGraphCore/Persistence/GraphPersistence.cs:14 | the path without its extension, then the new extension with a leading dot; an empty path stays empty |
| Paths.ChangeExtensionTwice | DirectedGraphCore/Persistence/GraphPersistence.cs:13-19 | changing the extension twice is changing it to the second |
| Paths.ChangeExtensionKeeps | DirectedGraphCore/Persistence/GraphPersistence.cs:16-19 | giving a path the extension it already has changes nothing |
| Persistence.GetLayoutPathFor | DirectedGraphCore/Persistence/GraphPersistence.cs:13-14 | the overlay path is the stem plus ".dgml-layout" |
| Persistence.GetStructurePathFor | DirectedGraphCore/Persistence/GraphPersistence.cs:16-19 | a path not ending in ".dgml-layout", in any letter case, is returned as is |
| Persistence.SerializerAgreesOnLayoutPath | DirectedGraphCore/Models/DgmlSerializer.cs:65 | the serializer and the persistence class derive the same overlay path |
| Persistence.StructurePathOfLayoutSuffix | DirectedGraphCore/Persistence/GraphPersistence.cs:16-19 | the `HasExtension` test adds nothing: every path ending in ".dgml-layout" gets ".dgml" |
| Persistence.StructureOfLayout | DirectedGraphCore/Persistence/GraphPersistence.cs:13-19 | from a path to its overlay and back ends at that path with extension ".dgml" |
| Persistence.StructurePathOfStructure | DirectedGraphCore/Persistence/GraphPersistence.cs:13-19 | a ".dgml" path is mapped to itself, and so is its overlay's structure path |
| Persistence.GetStructurePathIdempotent | DirectedGraphCore/Persistence/GraphPersistence.cs:16-19 | mapping to the structure path twice is mapping once |
| Persistence.NormalisedPath | DirectedGraphCore/Persistence/GraphPersistence.cs:47-50 | the inline normalisation in the pair load is the structure-path mapping |
| Persistence.LoadPair | DirectedGraphCore/Persistence/GraphPersistence.cs:45-63 | loads from the structure path of the given path, passes its errors on, and records that structure path as the model's file path; the nodes are the loaded structure's (without an overlay) or those nodes with their missing pins completed (with one) |
| Persistence.LoadFromDgmlFile | DirectedGraphCore/Models/GraphModel.cs:33-40 | a missing file fails and changes nothing; otherwise the loaded edges replace the model's, the nodes are the loaded structure's (without an overlay) or those nodes with their missing pins completed (with one), and the file path is kept |
| SlotGraph.NewConnection | DirectedGraphCore/DirectedGraph.cs:44-51 | a connection object is built exactly when it joins an output slot to an input slot; otherwise the argument error escapes |
| SlotGraph.AddNode | DirectedGraphCore/DirectedGraph.cs:59 | the node is appended, even if already listed |
| SlotGraph.AddNodeTwiceKeepsBoth | DirectedGraphCore/DirectedGraph.cs:59 | adding a node twice lists it twice more |
| SlotGraph.Connect | DirectedGraphCore/DirectedGraph.cs:61-65 | when some listed connection joins exactly these slots nothing changes; otherwise one new connection object, directed and never listed before, is appended, or the constructor's error escapes |
| SlotGraph.ConnectIdempotent | DirectedGraphCore/DirectedGraph.cs:61-65 | connecting the same slots again changes nothing |
| SlotGraph.ConnectKeepsInvariant | DirectedGraphCore/DirectedGraph.cs:61-65 | connections stay distinct and all directed, and no two join the same pair of slots |
| SlotGraph.ConnectKeepsHandlesBelow | DirectedGraphCore/DirectedGraph.cs:61-65 | every listed connection stays older than the next one `Connect` makes |
| SlotGraph.Disconnect | DirectedGraphCore/DirectedGraph.cs:67 | one copy of that connection object is removed, if listed; connections are matched by handle, that is by reference |
| SlotGraph.DisconnectStrangerKeeps | DirectedGraphCore/DirectedGraph.cs:67 | a connection object the model never listed removes nothing, even if it joins listed slots |
| SlotGraph.ConnectThenDisconnectStranger | DirectedGraphCore/DirectedGraph.cs:61-67 | after `Connect`, disconnecting a newly built connection between the same slots leaves the listed one in place |
| SlotGraph.DisconnectRemovesOnlyIt | DirectedGraphCore/DirectedGraph.cs:67 | without repeats, the connection is gone and every other one stays |
| SlotGraph.ConnectThenDisconnect | DirectedGraphCore/DirectedGraph.cs:61-67 | connecting unlinked slots and disconnecting the connection `Connect` listed gives back the nodes and connections |
| SlotGraph.ConnectionsFrom | DirectedGraphCore/DirectedGraph.cs:69-70 | exactly the connections leaving a slot of the node |
| SlotGraph.ConnectionsTo | DirectedGraphCore/DirectedGraph.cs:72-73 | exactly the connections arriving at a slot of the node |
| SlotGraph.ConnectionsAfterConnect | DirectedGraphCore/DirectedGraph.cs:61-73 | a new connection is listed last for its endpoints' nodes, and other nodes' lists do not change |
| KeyedGraph.NewEdge | DirectedGraphCore/DirectedGraph/GraphEdge.cs:33-42 | a two-node edge has slots 0 and the `BuildId` of its endpoints as id |
| KeyedGraph.NewEdgeWithSlots | DirectedGraphCore/DirectedGraph/GraphEdge.cs:44-53 | a four-argument edge keeps the given slots and gets the same id |
| KeyedGraph.NewUnsetEdge | DirectedGraphCore/DirectedGraph/GraphEdge.cs:27-30 | the parameterless constructor always throws, since its nodes are not set |
| KeyedGraph.SamePairSameId | DirectedGraphCore/DirectedGraph/GraphEdge.cs:33-56 | edges between the same pair of ids share an id, whatever their slots |
| KeyedGraph.BuildIdCollides | DirectedGraphCore/DirectedGraph/GraphEdge.cs:56 | `BuildId` is not injective: ("a-b", "c") and ("a", "b-c") collide |
| KeyedGraph.FindOrAddNode | DirectedGraphCore/DirectedGraph/GraphModel.cs:15-24 | the stored node, or one new node named `name ?? id`; a valid model stays valid |
| KeyedGraph.FindOrAddNodeIdempotent | DirectedGraphCore/DirectedGraph/GraphModel.cs:15-24 | finding or adding twice is doing it once |
| KeyedGraph.FindOrAddEdge | DirectedGraphCore/DirectedGraph/GraphModel.cs:30-43 | both nodes exist afterwards; the edge under the key is returned and is added only when missing |
| KeyedGraph.FindOrAddEdgeValid | DirectedGraphCore/DirectedGraph/GraphModel.cs:30-43 | on a valid model the edge is stored under `BuildId(source, target)` and the model stays valid |
| KeyedGraph.FindOrAddEdgeIdempotent | DirectedGraphCore/DirectedGraph/GraphModel.cs:30-43 | asking twice for the same pair stores no second edge |
| KeyedGraph.CollidingPairsShareEdge | DirectedGraphCore/DirectedGraph/GraphModel.cs:30-43 | after an edge from "a-b" to "c", asking for one from "a" to "b-c" returns the first edge |
| LegacyGraph.AddNode | DirectedGraphCore/DirectedGraph/DirectedGraph.cs:66-70 | a missing id is added with label `label ?? id`; an existing one is kept |
| LegacyGraph.AddNodeIdempotent | DirectedGraphCore/DirectedGraph/DirectedGraph.cs:66-70 | adding an id twice is adding it once, whatever the second label |
| LegacyGraph.AddEdge | DirectedGraphCore/DirectedGraph/DirectedGraph.cs:77-82 | missing endpoints are added labelled by their ids, and the edge is appended |
| LegacyGraph.AddEdgeKeepsWellFormed | DirectedGraphCore/DirectedGraph/DirectedGraph.cs:77-82 | adding an edge between non-blank ids keeps the model well formed |
| LegacyGraph.AddEdgeKeepsDuplicates | DirectedGraphCore/DirectedGraph/DirectedGraph.cs:77-82 | the same edge added twice is listed twice |
| LegacyGraph.ChainAbcShape | DirectedGraphCore.Tests/DgmlSerializerTests.cs:12-24 | the test's chain A→B→C has three nodes and the two edges in order |
| LegacyGraph.ChainAbcWellFormed | DirectedGraphCore.Tests/DgmlSerializerTests.cs:12-24 | the chain is well formed |
| LegacyDgml.Document | DirectedGraphCore/DgmlSerializer.cs:17-45 | the saved document has a Node per node with id and label and a Link per edge, in list order |
| LegacyDgml.SaveIn | DirectedGraphCore/DgmlSerializer.cs:17-45 | for any enumeration order of the nodes, saving writes one file, and a well-formed model loads back from it unchanged |
| LegacyDgml.Save | DirectedGraphCore/DgmlSerializer.cs:17-45 | saving writes one file, and a well-formed model loads back from it unchanged |
| LegacyDgml.LoadNodes | DirectedGraphCore/DgmlSerializer.cs:53-65 | nodes with blank ids are skipped, and the others are added without changing existing nodes |
| LegacyDgml.LoadLinks | DirectedGraphCore/DgmlSerializer.cs:67-79 | only links with both endpoints are appended, and the model stays well formed |
| LegacyDgml.Load | DirectedGraphCore/DgmlSerializer.cs:47-82 | a missing file fails; otherwise the result is well formed, and empty without Nodes and Links |
| LegacyDgml.RoundTrip | DirectedGraphCore/DgmlSerializer.cs:17-82 | a well-formed model saved and loaded is the same model |
| LegacyDgml.LoadSaveLoad | DirectedGraphCore/DgmlSerializer.cs:17-82 | whatever was loaded saves and loads back unchanged |
| LegacyDgml.ChainRoundTrip | DirectedGraphCore.Tests/DgmlSerializerTests.cs:12-24 | the test's chain reloads with three nodes and both edges |

## Left out

- I/O. XML parsing and writing, `File.Exists` and async tasks are left out; files are a map from paths to element trees.
- `GraphModel.ResetFromJsonFile`: JSON deserialization is not modelled.
- `Vector2.Length` and `Vector3.Length` are left out: they need a square root of a float.
- `ToString` and the float formatting: number text is a `NumberFormat` parameter.
- `GraphPersistence.SavePairAsync`, `SaveDgmlAsync` and `LoadDgmlAsync`: they only wrap `SaveAsDgml` and `LoadFromDgml`, which are modelled.
- `SaveToFile` and `LoadFromFile` of the keyed graph and of `DirectedGraph/DirectedGraph.cs` are left out: the keyed graph's serializer is not part of this model, and the other file's pair is the legacy serializer, which is modelled as `LegacyDgml`.
- Property-changed notifications (`ObservableObject`, `ObservableCollection`) are left out. The controller's own events are modelled.
- Persistence.GetStructurePathFor: the contract says nothing about paths ending in ".dgml-layout". `StructurePathOfLayoutSuffix` and `StructureOfLayout` say what they map to.
- Commands.Undo: undo restores the model, not the selection, the event log or the id counter, because the source restores only the model. Undoing a remove-edge brings back its endpoints under a new edge id, not the removed id.
- DgmlRoundTrip.SaveThenLoad: it covers the load up to, not including, the pass that gives pins to nodes without pins. That pass is described on its own by `DgmlSerializer.AddMissingPins`.
- DgmlRoundTrip.SaveThenLoad: positions and sizes come back only when the codec reads them back exactly (`Dgml.Faithful` with the model's values in its set). A number the codec rounds is not followed.
- DgmlSerializer.LoadLinks: the contract does not say that a usable link adds its edge. `DgmlRoundTrip.LoadSavedStructure` proves it for saved files.
- Controller.MoveSelectedBy: the source enumerates a `HashSet` whose order is not specified. The contract holds for the order chosen but does not name it.
- Controller.MoveSelectedBy: the selection holds node ids, not node objects. A selected id that names no node of the model is skipped and raises no `NodeMoved`. The source would move such a node object and announce it. `SelectNode` accepts any id, so this can happen; `SelectionInModelKept` says when it cannot.
- Controller.MoveSelectedByInEvents: likewise, it announces only the selected ids that name nodes of the model.
- Paths: only the Windows separators `/` and `\` are modelled. On Unix `\` is an ordinary file-name character, so a path with one there can get a different extension.
- Number cultures: one `NumberFormat` is used for every number. The source parses Position x and y with the invariant culture, but Position z, Size and Bounds with the current culture (`DirectedGraphCore/Models/DgmlSerializer.cs:127-137` and `192-211`). A machine where the two cultures differ is not modelled.
- Geometry: positions and sizes are exact reals. Float rounding is not modelled, so the undo lemmas hold in exact arithmetic only.
- Geometry.DivideVector2 and Geometry.DivideVector3: the divisor must not be 0. In C#, float division by 0 (`DirectedGraphCore/Geometry/Primitives.cs:43` and `58`) gives Infinity or NaN and throws nothing. Reals have neither value, so that case is not modelled.
- Controller.ReloadFromIn: reloading from the controller's own model is not modelled as the source does it. The source clears `Model.Nodes` and `Model.Edges` and then copies from the same, now empty, dictionaries, so the model ends up empty (`DirectedGraphCore/Controllers/GraphController.cs:130-135`). The model copies the source graph as it was before the clear. The one caller in the editor passes a model freshly loaded by `GraphPersistence.LoadDgmlAsync`.

## Findings

| source | as written | input that shows it | evidently intended | confidence | as-written member | corrected member |
|---|---|---|---|---|---|---|
| DirectedGraphCore/Geometry/Primitives.cs:56 | `Vector3` subtraction adds the z components | <0,0,1> - <0,0,1> gives <0,0,2> | z is subtracted like x and y, so subtraction undoes addition | high (not executed) | Geometry.SubVector3AsWrittenWitness | Geometry.SubVector3UndoesAdd |
| DirectedGraphCore/Commands/UndoCommands.cs:118-122 | `RemoveEdgeCommand.Undo` re-adds the edge under a new id but keeps the old snapshot | remove edge e, undo, redo: redo removes e's old id, so the re-added edge survives | undo keeps the re-added edge, so redo removes it again | high (not executed) | Commands.RemoveEdgeRedoKeepsRecreatedAsWritten | Commands.RemoveEdgeRedoRemoves |
| DirectedGraphCore/Commands/UndoCommands.cs:70-86 | the constructors test the not-yet-assigned field `this.controller` for null and return, so the command never gets a controller | any controller and endpoints: `Do` adds no edge | the argument `controller` is checked for null and stored | high (not executed) | Commands.NestedAddEdgeInert | Commands.AddEdgeRestores |
