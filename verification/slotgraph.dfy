/**
 * The slot-connection graph of `DirectedGraph.cs`: a list of nodes and a
 * list of connections, each joining an output slot to an input slot.
 *
 * Nodes, slots and connections are objects compared by reference. Here
 * each carries a `handle` that no two distinct objects share, so value
 * equality of these records is reference equality; a slot's owner is its
 * node's handle. Nodes and slots are built by the caller, who supplies their
 * handles. Connections built by `Connect` take their handle from the
 * model's counter `nextHandle`, so each is a new object; a connection built
 * elsewhere carries a handle of its own choosing. `DirectedGraph/DirectedGraph.cs`
 * holds an identical copy of the connection class in another namespace; it
 * is modelled by the same constructor.
 */
module SlotGraph {
  import opened Base

  datatype SlotDirection = Input | Output

  datatype GraphNode = GraphNode(handle: nat, id: string, name: string)

  datatype GraphSlot = GraphSlot(handle: nat, name: string, direction: SlotDirection, owner: nat)

  datatype GraphConnection = GraphConnection(handle: nat, from: GraphSlot, to: GraphSlot)

  datatype GraphModel = GraphModel(nodes: seq<GraphNode>, connections: seq<GraphConnection>, nextHandle: nat)

  const Empty := GraphModel([], [], 0)

  /** What a connection must join: an output slot to an input slot. */
  predicate Directed(c: GraphConnection) {
    c.from.direction == Output && c.to.direction == Input
  }

  /** Every connection of the model is directed. */
  predicate AllDirected(g: GraphModel) {
    forall i | 0 <= i < |g.connections| :: Directed(g.connections[i])
  }

  /** No connection is listed twice. */
  predicate Unique(s: seq<GraphConnection>) {
    forall i, j | 0 <= i < j < |s| :: s[i] != s[j]
  }

  /** No two listed connections join the same pair of slots. */
  predicate NoParallel(s: seq<GraphConnection>) {
    forall i, j | 0 <= i < j < |s| :: s[i].from != s[j].from || s[i].to != s[j].to
  }

  /** Every listed connection was made before the counter's current value. */
  predicate HandlesBelow(g: GraphModel) {
    forall i | 0 <= i < |g.connections| :: g.connections[i].handle < g.nextHandle
  }

  /** The `Any` test of `Connect`: some listed connection joins exactly these slots. */
  predicate Linked(g: GraphModel, from: GraphSlot, to: GraphSlot) {
    exists i | 0 <= i < |g.connections| :: g.connections[i].from == from && g.connections[i].to == to
  }

  /**
   * The `GraphConnection` constructor, which rejects any other direction
   * pair; `handle` stands for the identity of the new object.
   */
  function NewConnection(handle: nat, from: GraphSlot, to: GraphSlot): (r: Result<GraphConnection>)
    ensures r.Ok? <==> from.direction == Output && to.direction == Input
    ensures r.Ok? ==> r.value == GraphConnection(handle, from, to) && Directed(r.value)
    ensures r.Err? ==> r.error == InvalidConnection
  {
    if from.direction != Output || to.direction != Input then Err(InvalidConnection)
    else Ok(GraphConnection(handle, from, to))
  }

  /** `AddNode`: appends, even a node already listed. */
  function AddNode(g: GraphModel, node: GraphNode): (r: GraphModel)
    ensures r.connections == g.connections
    ensures |r.nodes| == |g.nodes| + 1
    ensures r.nodes[..|g.nodes|] == g.nodes && r.nodes[|g.nodes|] == node
  {
    g.(nodes := g.nodes + [node])
  }

  /** Adding the same node twice lists it twice more. */
  lemma AddNodeTwiceKeepsBoth(g: GraphModel, node: GraphNode)
    ensures var r := AddNode(AddNode(g, node), node);
      multiset(r.nodes)[node] == multiset(g.nodes)[node] + 2
  {
    var r := AddNode(AddNode(g, node), node);
    assert r.nodes == g.nodes + [node] + [node];
  }

  /**
   * `Connect`: nothing happens when a connection between exactly these two
   * slots exists; otherwise the constructor's check runs and, when it
   * passes, exactly one new connection object is appended.
   */
  function Connect(g: GraphModel, from: GraphSlot, to: GraphSlot): (r: Result<GraphModel>)
    ensures Linked(g, from, to) ==> r == Ok(g)
    ensures !Linked(g, from, to) ==>
      && (r.Ok? <==> from.direction == Output && to.direction == Input)
      && (r.Ok? ==> r.value.connections == g.connections + [GraphConnection(g.nextHandle, from, to)])
      && (r.Ok? ==> r.value.nextHandle == g.nextHandle + 1)
    ensures r.Ok? ==> r.value.nodes == g.nodes && Linked(r.value, from, to)
    ensures r.Err? ==> r.error == InvalidConnection
  {
    if Linked(g, from, to) then Ok(g)
    else
      var c :- NewConnection(g.nextHandle, from, to);
      var r := GraphModel(g.nodes, g.connections + [c], g.nextHandle + 1);
      assert r.connections[|g.connections|] == c;
      Ok(r)
  }

  /** Connecting the same two slots again changes nothing. */
  lemma ConnectIdempotent(g: GraphModel, from: GraphSlot, to: GraphSlot)
    requires Connect(g, from, to).Ok?
    ensures Connect(Connect(g, from, to).value, from, to) == Connect(g, from, to)
  {
  }

  /** `Connect` keeps the connections distinct, all directed and free of parallel pairs. */
  lemma ConnectKeepsInvariant(g: GraphModel, from: GraphSlot, to: GraphSlot)
    requires Unique(g.connections) && AllDirected(g)
    requires Connect(g, from, to).Ok?
    ensures Unique(Connect(g, from, to).value.connections)
    ensures AllDirected(Connect(g, from, to).value)
    ensures NoParallel(g.connections) ==> NoParallel(Connect(g, from, to).value.connections)
  {
  }

  /** Every connection stays older than the counter: `Connect` makes a new object. */
  lemma ConnectKeepsHandlesBelow(g: GraphModel, from: GraphSlot, to: GraphSlot)
    requires HandlesBelow(g) && Connect(g, from, to).Ok?
    ensures HandlesBelow(Connect(g, from, to).value)
  {
  }

  /** The position of the first occurrence of `x`. */
  function FirstIndex(s: seq<GraphConnection>, x: GraphConnection): (i: nat)
    requires x in s
    ensures i < |s| && s[i] == x && x !in s[..i]
  {
    if s[0] == x then 0
    else
      assert s == [s[0]] + s[1..];
      var j := FirstIndex(s[1..], x);
      assert s[..j + 1] == [s[0]] + s[1..][..j];
      j + 1
  }

  /** `List.Remove`: drops the first occurrence of `x`, if any. */
  function RemoveFirst(s: seq<GraphConnection>, x: GraphConnection): (r: seq<GraphConnection>)
    ensures |r| == if x in s then |s| - 1 else |s|
  {
    if x in s then s[..FirstIndex(s, x)] + s[FirstIndex(s, x) + 1..] else s
  }

  /** Removing the first occurrence takes exactly one copy out of the multiset. */
  lemma RemoveFirstMultiset(s: seq<GraphConnection>, x: GraphConnection)
    requires x in s
    ensures multiset(RemoveFirst(s, x)) == multiset(s) - multiset{x}
  {
    var i := FirstIndex(s, x);
    assert s == s[..i] + ([x] + s[i + 1..]);
  }

  /** `Disconnect`: removes that connection; the node list is untouched. */
  function Disconnect(g: GraphModel, c: GraphConnection): (r: GraphModel)
    ensures r.nodes == g.nodes
    ensures c !in g.connections ==> r == g
    ensures c in g.connections ==> multiset(r.connections) == multiset(g.connections) - multiset{c}
  {
    if c in g.connections then
      RemoveFirstMultiset(g.connections, c);
      g.(connections := RemoveFirst(g.connections, c))
    else g
  }

  /**
   * On a model without repeated connections, `Disconnect` leaves no copy of
   * the connection and keeps every other one, in order.
   */
  lemma DisconnectRemovesOnlyIt(g: GraphModel, c: GraphConnection)
    requires Unique(g.connections)
    ensures var r := Disconnect(g, c);
      && c !in r.connections
      && (forall d | d in g.connections && d != c :: d in r.connections)
      && Unique(r.connections)
  {
    if c in g.connections {
      DeleteAt(g.connections, FirstIndex(g.connections, c));
    }
  }

  /** Deleting position `i` of a list without repeats leaves the others, without repeats and without `s[i]`. */
  lemma DeleteAt(s: seq<GraphConnection>, i: nat)
    requires Unique(s) && i < |s|
    ensures var r := s[..i] + s[i + 1..];
      && s[i] !in r
      && (forall d | d in s && d != s[i] :: d in r)
      && Unique(r)
  {
    var r := s[..i] + s[i + 1..];
    assert forall k | 0 <= k < |r| :: r[k] == s[if k < i then k else k + 1];
    forall d | d in s && d != s[i] ensures d in r {
      var k :| 0 <= k < |s| && s[k] == d;
      assert r[if k < i then k else k - 1] == d;
    }
  }

  /**
   * A connection object that the model never listed (one built with
   * `new GraphConnection` by the caller, say) is not removed, even when it
   * joins the same slots as a listed one: `List.Remove` compares references.
   */
  lemma DisconnectStrangerKeeps(g: GraphModel, c: GraphConnection)
    requires HandlesBelow(g) && c.handle >= g.nextHandle
    ensures Disconnect(g, c) == g
  {
  }

  /**
   * Connecting two unlinked slots and disconnecting the connection that
   * `Connect` listed gives back the nodes and connections; only the handle
   * counter has moved on.
   */
  lemma ConnectThenDisconnect(g: GraphModel, from: GraphSlot, to: GraphSlot)
    requires !Linked(g, from, to)
    requires Connect(g, from, to).Ok?
    ensures var r := Connect(g, from, to).value;
      Disconnect(r, r.connections[|r.connections| - 1]) == g.(nextHandle := g.nextHandle + 1)
  {
    var c := GraphConnection(g.nextHandle, from, to);
    assert c !in g.connections;
    RemoveFirstLast(g.connections, c);
  }

  /** Removing an element that was only just appended gives back the list. */
  lemma RemoveFirstLast(s: seq<GraphConnection>, c: GraphConnection)
    requires c !in s
    ensures RemoveFirst(s + [c], c) == s
  {
    var t := s + [c];
    assert forall k | 0 <= k < |s| :: t[k] == s[k];
    assert FirstIndex(t, c) == |s|;
    assert t[..|s|] == s;
  }

  /** Building a fresh connection between the same slots and disconnecting it leaves the listed one. */
  lemma ConnectThenDisconnectStranger(g: GraphModel, from: GraphSlot, to: GraphSlot, c: GraphConnection)
    requires HandlesBelow(g) && Connect(g, from, to).Ok?
    requires NewConnection(Connect(g, from, to).value.nextHandle, from, to) == Ok(c)
    ensures var r := Connect(g, from, to).value;
      Disconnect(r, c) == r && Linked(Disconnect(r, c), from, to)
  {
    ConnectKeepsHandlesBelow(g, from, to);
    DisconnectStrangerKeeps(Connect(g, from, to).value, c);
  }

  /** `Enumerable.Where`: the elements satisfying `p`, in their order. */
  function Where(s: seq<GraphConnection>, p: GraphConnection -> bool): (r: seq<GraphConnection>)
    ensures |r| <= |s|
    ensures forall x :: x in r <==> x in s && p(x)
  {
    if |s| == 0 then []
    else
      assert s == [s[0]] + s[1..];
      (if p(s[0]) then [s[0]] else []) + Where(s[1..], p)
  }

  /** Filtering a concatenation filters each part in turn, so the order is kept. */
  lemma {:induction false} WhereAppend(s: seq<GraphConnection>, t: seq<GraphConnection>, p: GraphConnection -> bool)
    ensures Where(s + t, p) == Where(s, p) + Where(t, p)
  {
    if |s| == 0 {
      assert s + t == t;
    } else {
      assert (s + t)[0] == s[0];
      assert (s + t)[1..] == s[1..] + t;
      WhereAppend(s[1..], t, p);
    }
  }

  /** Filtering one element keeps it exactly when it satisfies `p`. */
  lemma WhereSingle(c: GraphConnection, p: GraphConnection -> bool)
    ensures Where([c], p) == if p(c) then [c] else []
  {
    assert [c][1..] == [];
  }

  /** `GetConnectionsFrom`: the connections leaving one of the node's slots. */
  function ConnectionsFrom(g: GraphModel, node: GraphNode): (r: seq<GraphConnection>)
    ensures forall c :: c in r <==> c in g.connections && c.from.owner == node.handle
  {
    Where(g.connections, (c: GraphConnection) => c.from.owner == node.handle)
  }

  /** `GetConnectionsTo`: the connections arriving at one of the node's slots. */
  function ConnectionsTo(g: GraphModel, node: GraphNode): (r: seq<GraphConnection>)
    ensures forall c :: c in r <==> c in g.connections && c.to.owner == node.handle
  {
    Where(g.connections, (c: GraphConnection) => c.to.owner == node.handle)
  }

  /**
   * A new connection is listed last among the connections from its source
   * slot's node and among those to its target slot's node; the lists of
   * every other node are unchanged.
   */
  lemma ConnectionsAfterConnect(g: GraphModel, from: GraphSlot, to: GraphSlot, node: GraphNode)
    requires !Linked(g, from, to)
    requires Connect(g, from, to).Ok?
    ensures var r := Connect(g, from, to).value;
      var c := GraphConnection(g.nextHandle, from, to);
      && ConnectionsFrom(r, node) == ConnectionsFrom(g, node) + (if from.owner == node.handle then [c] else [])
      && ConnectionsTo(r, node) == ConnectionsTo(g, node) + (if to.owner == node.handle then [c] else [])
  {
    var c := GraphConnection(g.nextHandle, from, to);
    var leaving := (c: GraphConnection) => c.from.owner == node.handle;
    var arriving := (c: GraphConnection) => c.to.owner == node.handle;
    WhereAppend(g.connections, [c], leaving);
    WhereAppend(g.connections, [c], arriving);
    WhereSingle(c, leaving);
    WhereSingle(c, arriving);
  }
}
