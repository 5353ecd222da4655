/**
 * What survives saving a model as DGML and loading it back: the node ids,
 * the set of (source, target) edge pairs, every node's position, a size
 * taken from the first input pin, and the number and direction of pins;
 * node names become their ids, edges are re-keyed by their endpoints, and
 * every reloaded pin has index 0 and a newly minted id.
 */
module DgmlRoundTrip {
  import opened Base
  import opened Text
  import opened Ids
  import opened Geometry
  import opened Pins
  import opened Nodes
  import opened Edges
  import opened Graphs
  import opened Paths
  import opened Enumeration
  import opened Dgml
  import opened DgmlSerializer

  /**
   * Models whose save can be read back: nodes stored under their ids, ids
   * that are not blank and contain no '-', edges between stored nodes, and
   * pins on the side their direction names.
   */
  predicate Saveable(m: Model) {
    && NodesKeyed(m)
    && (forall k | k in m.nodes :: !IsNullOrWhiteSpace(Some(k)) && '-' !in k && SidesConsistent(m.nodes[k]))
    && (forall k | k in m.edges :: m.edges[k].sourceNodeId in m.nodes && m.edges[k].targetNodeId in m.nodes)
  }

  /** The part of `Saveable` the overlay relies on. */
  predicate NodesSaveable(m: Model) {
    forall k | k in m.nodes :: m.nodes[k].id == k && SidesConsistent(m.nodes[k])
  }

  /** The numbers the overlay writes for `n`: its position and its layout size. */
  predicate NodeExact(n: Node, exact: real -> bool) {
    && exact(n.position.x) && exact(n.position.y) && exact(n.position.z)
    && exact(LayoutSize(n).width) && exact(LayoutSize(n).height) && exact(LayoutSize(n).depth)
  }

  /** Every number the overlay of `m` writes is one the codec reads back exactly. */
  predicate LayoutExact(m: Model, exact: real -> bool) {
    forall k | k in m.nodes :: NodeExact(m.nodes[k], exact)
  }

  /** The (source, target) pairs the edges connect. */
  function EdgePairs(g: Model): set<(string, string)> {
    set k | k in g.edges :: (g.edges[k].sourceNodeId, g.edges[k].targetNodeId)
  }

  /** Every node of `m` has a reloaded counterpart in `nodes`. */
  predicate AllReloaded(nodes: map<string, Node>, m: Model) {
    forall k | k in m.nodes :: k in nodes && Reloaded(nodes[k], m.nodes[k])
  }

  /** `count` pins, all of direction `d` on node `nodeId`, all with index 0. */
  predicate PinShape(pins: seq<Pin>, count: nat, d: Direction, nodeId: string) {
    |pins| == count && forall j | 0 <= j < |pins| :: pins[j].index == 0 && pins[j].direction == d && pins[j].nodeId == nodeId
  }

  /** How a reloaded node `x` relates to the node `n` that was saved. */
  predicate Reloaded(x: Node, n: Node) {
    && x.id == n.id && x.name == n.id
    && x.position == n.position
    && x.size == Some(LayoutSize(n))
    && PinShape(x.inputs, |n.inputs|, Input, n.id)
    && PinShape(x.outputs, |n.outputs|, Output, n.id)
  }

  // ------------------------------------------------------------ structure

  function NodeMapOf(order: seq<string>): map<string, Node> {
    map k | k in order :: NewNode(k, k)
  }

  lemma NodeMapSnoc(order: seq<string>, k: string)
    ensures NodeMapOf(order + [k]) == NodeMapOf(order)[k := NewNode(k, k)]
  {
    var a, b := NodeMapOf(order + [k]), NodeMapOf(order)[k := NewNode(k, k)];
    forall x | x in b ensures x in a {
      if x != k {
        var i :| 0 <= i < |order| && order[i] == x;
        assert (order + [k])[i] == x;
      }
    }
  }

  /** Each listed id is mapped to a new node named by that id, and nothing else is. */
  lemma NodeMapOfFresh(order: seq<string>)
    ensures forall i | 0 <= i < |order| :: order[i] in NodeMapOf(order) && NodeMapOf(order)[order[i]] == NewNode(order[i], order[i])
    ensures forall k | k in NodeMapOf(order) :: k in order
  {
  }

  lemma NodeMapOfKeys(order: seq<string>, keys: set<string>)
    requires IsEnumeration(order, keys)
    ensures NodeMapOf(order).Keys == keys
  {
  }

  /** A saved structure Node entry is find-or-added by its id, without a Bounds pin. */
  lemma LoadSavedNode(g: Model, n: Node, f: NumberFormat, c: nat)
    requires !IsNullOrWhiteSpace(Some(n.id))
    ensures LoadNode(g, NodeElement(n), f, c) == (FindOrAddNode(g, n.id, None).0, c)
  {
    var e := NodeElement(n);
    assert Attr(e, "Id") == Some(n.id);
    assert "Bounds" !in e.attrs by {
      assert |"Bounds"| != |"Id"| && |"Bounds"| != |"Label"|;
    }
  }

  /** Reading the saved Node entries finds-or-adds exactly the saved ids, named by their ids. */
  lemma {:induction false} LoadSavedNodes(m: Model, order: seq<string>, f: NumberFormat, nextId: nat)
    requires forall i | 0 <= i < |order| :: order[i] in m.nodes
    requires NodesKeyed(m)
    requires forall k | k in m.nodes :: !IsNullOrWhiteSpace(Some(k))
    ensures LoadNodes(Graphs.Empty, NodeElements(m, order), f, nextId) == (Model(NodeMapOf(order), map[], ""), nextId)
    decreases |order|
  {
    if |order| == 0 {
      assert NodeMapOf(order) == map[];
    } else {
      var prefix := order[..|order| - 1];
      LoadSavedNodes(m, prefix, f, nextId);
      LoadNodesSnoc(Graphs.Empty, NodeElements(m, order), f, nextId);
      LoadSavedNodeStep(m, order, f, nextId);
    }
  }

  /** `LoadNodes` reads the last entry after all the others. */
  lemma LoadNodesSnoc(g: Model, elems: seq<Element>, f: NumberFormat, nextId: nat)
    requires |elems| > 0
    ensures var r := LoadNodes(g, elems[..|elems| - 1], f, nextId);
      LoadNodes(g, elems, f, nextId) == LoadNode(r.0, elems[|elems| - 1], f, r.1)
  {
  }

  /** The last saved Node entry adds its id to the ids read before it. */
  lemma LoadSavedNodeStep(m: Model, order: seq<string>, f: NumberFormat, c: nat)
    requires |order| > 0 && forall i | 0 <= i < |order| :: order[i] in m.nodes
    requires NodesKeyed(m)
    requires forall k | k in m.nodes :: !IsNullOrWhiteSpace(Some(k))
    ensures var prefix := order[..|order| - 1];
      && NodeElements(m, order)[..|order| - 1] == NodeElements(m, prefix)
      && LoadNode(Model(NodeMapOf(prefix), map[], ""), NodeElements(m, order)[|order| - 1], f, c)
         == (Model(NodeMapOf(order), map[], ""), c)
  {
    var prefix := order[..|order| - 1];
    var k := order[|order| - 1];
    assert NodeElements(m, order)[..|order| - 1] == NodeElements(m, prefix);
    var g := Model(NodeMapOf(prefix), map[], "");
    LoadSavedNode(g, m.nodes[k], f, c);
    NodeMapSnoc(prefix, k);
    assert prefix + [k] == order;
    if k in g.nodes {
      assert g.nodes[k] == NewNode(k, k);
      assert g.nodes[k := NewNode(k, k)] == g.nodes;
    }
  }

  /** Every edge is `Create(key, s, "", t, "")` under the key of its endpoints, with '-' not in `s`. */
  predicate CanonicalEdges(g: Model) {
    forall k | k in g.edges ::
      var e := g.edges[k];
      e == Create(k, e.sourceNodeId, "", e.targetNodeId, "") && k == EdgeKey(e.sourceNodeId, e.targetNodeId)
      && '-' !in e.sourceNodeId
  }

  /** The pairs of the edges listed by `order`. */
  function PairsOf(m: Model, order: seq<string>): set<(string, string)>
    requires forall i | 0 <= i < |order| :: order[i] in m.edges
  {
    set i | 0 <= i < |order| :: (m.edges[order[i]].sourceNodeId, m.edges[order[i]].targetNodeId)
  }

  lemma PairsOfSnoc(m: Model, order: seq<string>)
    requires |order| > 0 && forall i | 0 <= i < |order| :: order[i] in m.edges
    ensures var e := m.edges[order[|order| - 1]];
      PairsOf(m, order) == PairsOf(m, order[..|order| - 1]) + {(e.sourceNodeId, e.targetNodeId)}
  {
    var n := |order|;
    var e := m.edges[order[n - 1]];
    forall p | p in PairsOf(m, order) ensures p in PairsOf(m, order[..n - 1]) + {(e.sourceNodeId, e.targetNodeId)} {
      var i :| 0 <= i < n && p == (m.edges[order[i]].sourceNodeId, m.edges[order[i]].targetNodeId);
      if i < n - 1 {
        assert order[..n - 1][i] == order[i];
      }
    }
    forall p | p in PairsOf(m, order[..n - 1]) ensures p in PairsOf(m, order) {
      var i :| 0 <= i < n - 1 && p == (m.edges[order[..n - 1][i]].sourceNodeId, m.edges[order[..n - 1][i]].targetNodeId);
      assert order[..n - 1][i] == order[i];
    }
    assert (e.sourceNodeId, e.targetNodeId) in PairsOf(m, order);
  }

  lemma PairsOfEnumeration(m: Model, order: seq<string>)
    requires IsEnumeration(order, m.edges.Keys)
    ensures PairsOf(m, order) == EdgePairs(m)
  {
    forall p | p in EdgePairs(m) ensures p in PairsOf(m, order) {
      var k :| k in m.edges && p == (m.edges[k].sourceNodeId, m.edges[k].targetNodeId);
      var i :| 0 <= i < |order| && order[i] == k;
    }
  }

  lemma EdgePairsAdd(g: Model, key: string, e: Edge)
    requires key !in g.edges
    ensures EdgePairs(g.(edges := g.edges[key := e])) == EdgePairs(g) + {(e.sourceNodeId, e.targetNodeId)}
  {
    var g' := g.(edges := g.edges[key := e]);
    forall p | p in EdgePairs(g) ensures p in EdgePairs(g') {
      var k :| k in g.edges && p == (g.edges[k].sourceNodeId, g.edges[k].targetNodeId);
      assert g'.edges[k] == g.edges[k];
    }
    assert g'.edges[key] == e;
  }

  /** A Link entry with both endpoints present is one find-or-add of its edge. */
  lemma LoadOneLink(g: Model, link: Element)
    requires LinkUsable(link)
    ensures LoadLinks(g, [link]) == FindOrAddEdge(g, Attr(link, "Source").value, Attr(link, "Target").value).0
  {
    assert [link][..0] == [];
  }

  /** Find-or-adding an edge between nodes already stored under their ids only touches the edges. */
  lemma FindOrAddEdgeBetweenKnown(g: Model, s: string, t: string)
    requires NodesKeyed(g) && s in g.nodes && t in g.nodes
    ensures var key := EdgeKey(s, t);
      FindOrAddEdge(g, s, t).0 == if key in g.edges then g else g.(edges := g.edges[key := Create(key, s, "", t, "")])
  {
  }

  /** Adding the edge (s, t) under its key, unless the key is taken, keeps edges canonical. */
  lemma AddCanonicalEdge(g: Model, s: string, t: string)
    requires CanonicalEdges(g) && '-' !in s
    ensures var key := EdgeKey(s, t);
      var r := if key in g.edges then g else g.(edges := g.edges[key := Create(key, s, "", t, "")]);
      CanonicalEdges(r) && EdgePairs(r) == EdgePairs(g) + {(s, t)}
  {
    var key := EdgeKey(s, t);
    if key in g.edges {
      var old_ := g.edges[key];
      EdgeKeyInjective(old_.sourceNodeId, old_.targetNodeId, s, t);
      assert (s, t) in EdgePairs(g);
    } else {
      EdgePairsAdd(g, key, Create(key, s, "", t, ""));
    }
  }

  /** One saved Link entry on a canonical graph whose nodes include the endpoints. */
  lemma LoadSavedLink(g: Model, m: Model, id: string)
    requires Saveable(m) && id in m.edges
    requires NodesKeyed(g) && CanonicalEdges(g)
    requires forall k | k in m.nodes :: k in g.nodes
    ensures var e := m.edges[id];
      var r := LoadLinks(g, [LinkElement(e)]);
      && r.nodes == g.nodes && r.filePath == g.filePath && CanonicalEdges(r)
      && EdgePairs(r) == EdgePairs(g) + {(e.sourceNodeId, e.targetNodeId)}
  {
    var e := m.edges[id];
    var s, t := e.sourceNodeId, e.targetNodeId;
    var link := LinkElement(e);
    SavedLinkUsable(m, id);
    LoadOneLink(g, link);
    FindOrAddEdgeBetweenKnown(g, s, t);
    AddCanonicalEdge(g, s, t);
  }

  /** A saved Link entry names the edge's endpoints, which are not blank. */
  lemma SavedLinkUsable(m: Model, id: string)
    requires Saveable(m) && id in m.edges
    ensures var e := m.edges[id];
      var link := LinkElement(e);
      && e.sourceNodeId in m.nodes && e.targetNodeId in m.nodes
      && Attr(link, "Source") == Some(e.sourceNodeId) && Attr(link, "Target") == Some(e.targetNodeId)
      && LinkUsable(link)
  {
    var e := m.edges[id];
    var link := LinkElement(e);
    assert Attr(link, "Source") == Some(e.sourceNodeId) && Attr(link, "Target") == Some(e.targetNodeId);
  }

  lemma LinkElementsPrefix(m: Model, order: seq<string>)
    requires |order| > 0 && forall i | 0 <= i < |order| :: order[i] in m.edges
    ensures LinkElements(m, order)[..|order| - 1] == LinkElements(m, order[..|order| - 1])
    ensures LinkElements(m, order)[|order| - 1] == LinkElement(m.edges[order[|order| - 1]])
  {
  }

  /** Reading Link entries is reading all but the last, then the last on its own. */
  lemma LoadLinksSnoc(g: Model, elems: seq<Element>)
    requires |elems| > 0
    ensures LoadLinks(g, elems) == LoadLinks(LoadLinks(g, elems[..|elems| - 1]), [elems[|elems| - 1]])
  {
    assert [elems[|elems| - 1]][..0] == [];
  }

  /** The induction step of `LoadSavedLinks`. */
  lemma LoadSavedLinksSnoc(b: Model, m: Model, order: seq<string>)
    requires Saveable(m) && |order| > 0
    requires forall i | 0 <= i < |order| :: order[i] in m.edges
    requires NodesKeyed(b)
    requires forall k | k in m.nodes :: k in b.nodes
    requires var r := LoadLinks(b, LinkElements(m, order[..|order| - 1]));
      r.nodes == b.nodes && r.filePath == b.filePath
      && CanonicalEdges(r) && EdgePairs(r) == PairsOf(m, order[..|order| - 1])
    ensures var r := LoadLinks(b, LinkElements(m, order));
      && r.nodes == b.nodes && r.filePath == b.filePath
      && CanonicalEdges(r) && EdgePairs(r) == PairsOf(m, order)
  {
    var n := |order|;
    var elems := LinkElements(m, order);
    LinkElementsPrefix(m, order);
    var g := LoadLinks(b, elems[..n - 1]);
    LoadSavedLink(g, m, order[n - 1]);
    LoadLinksSnoc(b, elems);
    PairsOfSnoc(m, order);
  }

  /** Reading the saved Link entries yields canonical edges connecting exactly the saved pairs. */
  lemma {:induction false} LoadSavedLinks(b: Model, m: Model, order: seq<string>)
    requires Saveable(m)
    requires forall i | 0 <= i < |order| :: order[i] in m.edges
    requires NodesKeyed(b) && b.edges == map[]
    requires forall k | k in m.nodes :: k in b.nodes
    ensures var r := LoadLinks(b, LinkElements(m, order));
      && r.nodes == b.nodes && r.filePath == b.filePath
      && CanonicalEdges(r) && EdgePairs(r) == PairsOf(m, order)
    decreases |order|
  {
    if |order| == 0 {
      assert EdgePairs(b) == {};
      assert PairsOf(m, order) == {};
    } else {
      LoadSavedLinks(b, m, order[..|order| - 1]);
      LoadSavedLinksSnoc(b, m, order);
    }
  }

  // --------------------------------------------------------------- layout

  lemma JoinThree(a: string, b: string, c: string, sep: char)
    ensures Join([a, b, c], sep) == a + [sep] + b + [sep] + c
  {
    assert [b, c][1..] == [c];
    assert Join([b, c], sep) == b + [sep] + c;
    assert [a, b, c][1..] == [b, c];
  }

  /** A saved triple of numbers reads back as the same three numbers. */
  lemma ParseFormatTriple(f: NumberFormat, exact: real -> bool, a: real, b: real, c: real)
    requires Faithful(f, exact) && exact(a) && exact(b) && exact(c)
    ensures ParseTriple(f, FormatTriple(f, a, b, c)) == Ok((a, b, c))
  {
    var parts := [f.formatReal(a), f.formatReal(b), f.formatReal(c)];
    JoinThree(parts[0], parts[1], parts[2], ',');
    assert FormatTriple(f, a, b, c) == Join(parts, ',');
    SplitJoin(parts, ',');
  }

  /** Whether `r` is a whole number of `1/scale` units. */
  predicate OnGrid(scale: nat, r: real)
    requires scale > 0
  {
    (r * scale as real).Floor as real == r * scale as real
  }

  /**
   * A fixed-point codec: a number is written as the whole count of
   * `1/scale` units it holds, and read back by dividing by `scale`.
   */
  function FixedPointFormat(scale: nat): NumberFormat
    requires scale > 0
  {
    NumberFormat(
      (r: real) => FixedPointText(scale, r),
      (t: string) => FixedPointRead(scale, t),
      ParseFixed)
  }

  /** The text of `r`: its whole count of `1/scale` units, rounded down. */
  function FixedPointText(scale: nat, r: real): string
    requires scale > 0
  {
    FormatFixed((r * scale as real).Floor, 0)
  }

  /** A signed count of `1/scale` units, read back as a number. */
  function FixedPointRead(scale: nat, t: string): Option<real>
    requires scale > 0
  {
    if ParseFixed(t).Some? then Some(ParseFixed(t).value as real / scale as real) else None
  }

  /** The text `FormatFixed` writes is digits after an optional '-', so it has no ','. */
  lemma FormatFixedHasNoComma(n: int, width: nat)
    ensures ',' !in FormatFixed(n, width)
  {
    var m := if n < 0 then -n else n;
    ParsePadLeft(m, width);
    var p := PadLeft(Digits(m), width);
    assert ',' !in p;
    if n < 0 {
      assert FormatFixed(n, width) == "-" + p;
    }
  }

  /** The whole count of `1/scale` units in a number on the grid. */
  function GridCount(scale: nat, r: real): (n: int)
    requires scale > 0 && OnGrid(scale, r)
    ensures n as real == r * scale as real
  {
    (r * scale as real).Floor
  }

  /** One number on the grid is written without ',' and read back as itself. */
  lemma FixedPointReadsBack(scale: nat, r: real)
    requires scale > 0 && OnGrid(scale, r)
    ensures FixedPointRead(scale, FixedPointText(scale, r)) == Some(r) && ',' !in FixedPointText(scale, r)
  {
    var n := GridCount(scale, r);
    assert FixedPointText(scale, r) == FormatFixed(n, 0);
    ParseFormatFixed(n, 0);
    FormatFixedHasNoComma(n, 0);
    GridCountDivides(scale, r);
  }

  /** Dividing the unit count by `scale` gives back the number. */
  lemma GridCountDivides(scale: nat, r: real)
    requires scale > 0 && OnGrid(scale, r)
    ensures GridCount(scale, r) as real / scale as real == r
  {
    MulDiv(r, scale as real);
  }

  lemma MulDiv(a: real, k: real)
    requires k != 0.0
    ensures (a * k) / k == a
  {
  }

  /** The fixed-point codec reads "0" as 0. */
  lemma ParseFixedZero()
    ensures ParseFixed("0") == Some(0)
  {
    assert AllDigits("0");
    assert "0"[..0] == "";
    assert ParseDigits("0") == 0;
  }

  /**
   * Some codec meets `Faithful`: the fixed-point codec reads back exactly
   * every whole multiple of `1/scale` (with `scale` 10, the default pin
   * size 0.1 among them).
   */
  lemma FixedPointFaithful(scale: nat)
    requires scale > 0
    ensures Faithful(FixedPointFormat(scale), (r: real) => OnGrid(scale, r))
  {
    var f := FixedPointFormat(scale);
    forall r: real | OnGrid(scale, r)
      ensures f.parseReal(f.formatReal(r)) == Some(r) && ',' !in f.formatReal(r)
    {
      FixedPointReadsBack(scale, r);
    }
    ParseFixedZero();
  }

  /** Pins of direction `d`, counted over the list. */
  function CountDir(pins: seq<Pin>, d: Direction): (c: nat)
    ensures c <= |pins|
    decreases |pins|
  {
    if |pins| == 0 then 0
    else CountDir(pins[..|pins| - 1], d) + (if pins[|pins| - 1].direction == d then 1 else 0)
  }

  lemma {:induction false} CountDirAppend(a: seq<Pin>, b: seq<Pin>, d: Direction)
    ensures CountDir(a + b, d) == CountDir(a, d) + CountDir(b, d)
    decreases |b|
  {
    if |b| > 0 {
      assert (a + b)[..|a + b| - 1] == a + b[..|b| - 1];
      CountDirAppend(a, b[..|b| - 1], d);
    } else {
      assert a + b == a;
    }
  }

  lemma {:induction false} CountDirUniform(a: seq<Pin>, d: Direction, d2: Direction)
    requires forall i | 0 <= i < |a| :: a[i].direction == d2
    ensures CountDir(a, d) == if d == d2 then |a| else 0
    decreases |a|
  {
    if |a| > 0 {
      CountDirUniform(a[..|a| - 1], d, d2);
    }
  }

  /** A saved Pin entry is read back with its direction and index 0. */
  lemma ReadSavedPin(f: NumberFormat, exact: real -> bool, p: Pin)
    requires Faithful(f, exact)
    ensures LayoutDirection(PinElement(p)) == p.direction
    ensures ParseInt(f, Attr(PinElement(p), "Index").GetOr("0")) == Ok(0)
  {
    var e := PinElement(p);
    assert "Index" !in e.attrs;
    assert Attr(e, "Direction") == Some(DirectionName(p.direction));
    assert !EqualsIgnoreCase("Input", "Output");
    assert EqualsIgnoreCase("Output", "Output");
  }

  /** Appending a pin of index 0 on its own side extends that side's shape by one. */
  lemma AppendShapedPin(n1: Node, a: nat, b: nat, d: Direction, k: nat)
    requires PinShape(n1.inputs, a, Input, n1.id) && PinShape(n1.outputs, b, Output, n1.id)
    ensures var r := WithSide(n1, d, Side(n1, d) + [NewPin(MintId(k), 0, d, n1.id)]);
      && r.id == n1.id
      && PinShape(r.inputs, a + (if d == Input then 1 else 0), Input, n1.id)
      && PinShape(r.outputs, b + (if d == Output then 1 else 0), Output, n1.id)
  {
  }

  lemma PinElementsPrefix(pins: seq<Pin>)
    requires |pins| > 0
    ensures PinElements(pins)[..|pins| - 1] == PinElements(pins[..|pins| - 1])
    ensures PinElements(pins)[|pins| - 1] == PinElement(pins[|pins| - 1])
  {
  }

  /** Reading one more Pin entry whose index reads as 0 appends a pin of index 0 on its side. */
  lemma AddLayoutPinsSnoc(x: Node, elems: seq<Element>, f: NumberFormat, c: nat)
    requires |elems| > 0 && AddLayoutPins(x, elems[..|elems| - 1], f, c).Ok?
    requires ParseInt(f, Attr(elems[|elems| - 1], "Index").GetOr("0")) == Ok(0)
    ensures var prev := AddLayoutPins(x, elems[..|elems| - 1], f, c).value;
      var d := LayoutDirection(elems[|elems| - 1]);
      AddLayoutPins(x, elems, f, c) == Ok((WithSide(prev.0, d, Side(prev.0, d) + [NewPin(MintId(prev.1), 0, d, prev.0.id)]), prev.1 + 1))
  {
    var e := elems[|elems| - 1];
    var prev := AddLayoutPins(x, elems[..|elems| - 1], f, c).value;
    assert ParseInt(f, Attr(e, "Index").GetOr("0")).value == 0;
  }

  /** One more saved Pin entry read after the others. */
  lemma AddSavedPinsStep(x: Node, pins: seq<Pin>, f: NumberFormat, exact: real -> bool, c: nat)
    requires Faithful(f, exact) && |pins| > 0
    requires var r := AddLayoutPins(x, PinElements(pins[..|pins| - 1]), f, c);
      && r.Ok?
      && PinShape(r.value.0.inputs, CountDir(pins[..|pins| - 1], Input), Input, x.id)
      && PinShape(r.value.0.outputs, CountDir(pins[..|pins| - 1], Output), Output, x.id)
    ensures var r := AddLayoutPins(x, PinElements(pins), f, c);
      && r.Ok?
      && PinShape(r.value.0.inputs, CountDir(pins, Input), Input, x.id)
      && PinShape(r.value.0.outputs, CountDir(pins, Output), Output, x.id)
  {
    var n := |pins|;
    var elems := PinElements(pins);
    PinElementsPrefix(pins);
    var prev := AddLayoutPins(x, elems[..n - 1], f, c).value;
    var p := pins[n - 1];
    ReadSavedPin(f, exact, p);
    AddLayoutPinsSnoc(x, elems, f, c);
    AppendShapedPin(prev.0, CountDir(pins[..n - 1], Input), CountDir(pins[..n - 1], Output), p.direction, prev.1);
  }

  /** Reading saved Pin entries into a node with no pins puts each on its side with index 0. */
  lemma {:induction false} AddSavedPins(x: Node, pins: seq<Pin>, f: NumberFormat, exact: real -> bool, c: nat)
    requires Faithful(f, exact)
    requires x.inputs == [] && x.outputs == []
    ensures var r := AddLayoutPins(x, PinElements(pins), f, c);
      && r.Ok?
      && PinShape(r.value.0.inputs, CountDir(pins, Input), Input, x.id)
      && PinShape(r.value.0.outputs, CountDir(pins, Output), Output, x.id)
    decreases |pins|
  {
    if |pins| > 0 {
      AddSavedPins(x, pins[..|pins| - 1], f, exact, c);
      AddSavedPinsStep(x, pins, f, exact, c);
    }
  }

  /** The saved Position reads back as the node's position. */
  lemma ReadSavedPosition(x: Node, n: Node, f: NumberFormat, exact: real -> bool)
    requires Faithful(f, exact) && NodeExact(n, exact)
    ensures WithLayoutPosition(x, LayoutNodeElement(f, n), f) == Ok(x.(position := n.position))
  {
    ParseFormatTriple(f, exact, n.position.x, n.position.y, n.position.z);
  }

  /** The saved Size reads back as the recorded layout size. */
  lemma ReadSavedSize(x: Node, n: Node, f: NumberFormat, exact: real -> bool)
    requires Faithful(f, exact) && NodeExact(n, exact)
    ensures WithLayoutSize(x, LayoutNodeElement(f, n), f) == Ok(x.(size := Some(LayoutSize(n))))
  {
    var size := LayoutSize(n);
    ParseFormatTriple(f, exact, size.width, size.height, size.depth);
  }

  /** On a node whose sides are consistent, the pins of each direction are that side's. */
  lemma CountAllPins(n: Node)
    requires SidesConsistent(n)
    ensures CountDir(AllPins(n), Input) == |n.inputs| && CountDir(AllPins(n), Output) == |n.outputs|
  {
    CountDirAppend(n.inputs, n.outputs, Input);
    CountDirAppend(n.inputs, n.outputs, Output);
    CountDirUniform(n.inputs, Input, Input);
    CountDirUniform(n.inputs, Output, Input);
    CountDirUniform(n.outputs, Input, Output);
    CountDirUniform(n.outputs, Output, Output);
  }

  /** The saved overlay entry of a node applied to its freshly loaded copy. */
  lemma ApplySavedNode(g: Model, n: Node, f: NumberFormat, exact: real -> bool, c: nat)
    requires Faithful(f, exact) && NodeExact(n, exact)
    requires SidesConsistent(n)
    requires n.id in g.nodes && g.nodes[n.id] == NewNode(n.id, n.id)
    ensures var r := ApplyLayoutNode(g, LayoutNodeElement(f, n), f, c);
      r.Ok? && Reloaded(r.value.0.nodes[n.id], n)
  {
    var e := LayoutNodeElement(f, n);
    var n0 := g.nodes[n.id];
    ReadSavedPosition(n0, n, f, exact);
    var n1 := n0.(position := n.position);
    ReadSavedSize(n1, n, f, exact);
    var n2 := n1.(size := Some(LayoutSize(n)));
    AddSavedPins(n2, AllPins(n), f, exact, c);
    CountAllPins(n);
    var added := AddLayoutPins(n2, ChildrenNamed(e, N("Pin")), f, c).value;
    assert ApplyLayoutNode(g, e, f, c) == Ok((g.(nodes := g.nodes[n.id := added.0]), added.1));
  }

  /** After the overlay entries of `order`: those nodes reloaded, the rest as loaded. */
  predicate LayoutApplied(g: Model, r: Model, m: Model, order: seq<string>) {
    && r.nodes.Keys == g.nodes.Keys && r.edges == g.edges
    && (forall i | 0 <= i < |order| :: order[i] in m.nodes && order[i] in r.nodes && Reloaded(r.nodes[order[i]], m.nodes[order[i]]))
    && (forall k | k in g.nodes && k !in order :: r.nodes[k] == g.nodes[k])
  }

  lemma ApplyLayoutSnoc(g: Model, elems: seq<Element>, f: NumberFormat, c: nat)
    requires |elems| > 0 && ApplyLayout(g, elems[..|elems| - 1], f, c).Ok?
    ensures var prev := ApplyLayout(g, elems[..|elems| - 1], f, c).value;
      ApplyLayout(g, elems, f, c) == ApplyLayoutNode(prev.0, elems[|elems| - 1], f, prev.1)
  {
  }

  /** Reloading one more node, and leaving every other node as it was, extends `LayoutApplied`. */
  lemma LayoutAppliedSnoc(g: Model, prev: Model, r: Model, m: Model, prefix: seq<string>, k: string)
    requires LayoutApplied(g, prev, m, prefix)
    requires k in m.nodes && k in r.nodes && Reloaded(r.nodes[k], m.nodes[k])
    requires r.nodes.Keys == prev.nodes.Keys && r.edges == prev.edges
    requires forall x | x in prev.nodes && x != k :: r.nodes[x] == prev.nodes[x]
    ensures LayoutApplied(g, r, m, prefix + [k])
  {
    forall i | 0 <= i < |prefix| + 1
      ensures (prefix + [k])[i] in m.nodes && (prefix + [k])[i] in r.nodes
        && Reloaded(r.nodes[(prefix + [k])[i]], m.nodes[(prefix + [k])[i]])
    {
      if i < |prefix| {
        assert (prefix + [k])[i] == prefix[i];
      }
    }
  }

  /** The overlay entry of one more node, not listed before, on top of the earlier ones. */
  lemma ApplySavedLayoutStep(g: Model, m: Model, prefix: seq<string>, k: string, prev: Model, f: NumberFormat, exact: real -> bool, c: nat)
    requires Faithful(f, exact)
    requires k in m.nodes && NodeExact(m.nodes[k], exact) && m.nodes[k].id == k && SidesConsistent(m.nodes[k]) && k !in prefix
    requires k in g.nodes && g.nodes[k] == NewNode(k, k)
    requires LayoutApplied(g, prev, m, prefix)
    ensures var r := ApplyLayoutNode(prev, LayoutNodeElement(f, m.nodes[k]), f, c);
      r.Ok? && LayoutApplied(g, r.value.0, m, prefix + [k])
  {
    var n := m.nodes[k];
    assert prev.nodes[k] == NewNode(k, k);
    ApplySavedNode(prev, n, f, exact, c);
    var r := ApplyLayoutNode(prev, LayoutNodeElement(f, n), f, c).value.0;
    LayoutAppliedSnoc(g, prev, r, m, prefix, k);
  }

  lemma SnocOfPrefix<T>(s: seq<T>)
    requires |s| > 0
    ensures s == s[..|s| - 1] + [s[|s| - 1]]
  {
  }

  lemma LayoutElementsOfPrefix(m: Model, order: seq<string>, f: NumberFormat)
    requires |order| > 0 && forall i | 0 <= i < |order| :: order[i] in m.nodes
    ensures LayoutElementsOf(m, order, f)[..|order| - 1] == LayoutElementsOf(m, order[..|order| - 1], f)
    ensures LayoutElementsOf(m, order, f)[|order| - 1] == LayoutNodeElement(f, m.nodes[order[|order| - 1]])
  {
  }

  /** The induction step of `ApplySavedLayout`: one more entry of the saved order. */
  lemma ApplySavedLayoutSnoc(g: Model, m: Model, order: seq<string>, f: NumberFormat, exact: real -> bool, c: nat)
    requires Faithful(f, exact) && |order| > 0
    requires Distinct(order) && forall i | 0 <= i < |order| :: order[i] in m.nodes
    requires var k := order[|order| - 1];
      NodeExact(m.nodes[k], exact) && m.nodes[k].id == k && SidesConsistent(m.nodes[k]) && k in g.nodes && g.nodes[k] == NewNode(k, k)
    requires var r := ApplyLayout(g, LayoutElementsOf(m, order[..|order| - 1], f), f, c);
      r.Ok? && LayoutApplied(g, r.value.0, m, order[..|order| - 1])
    ensures var r := ApplyLayout(g, LayoutElementsOf(m, order, f), f, c);
      r.Ok? && LayoutApplied(g, r.value.0, m, order)
  {
    var n := |order|;
    var elems := LayoutElementsOf(m, order, f);
    var prefix := order[..n - 1];
    var k := order[n - 1];
    LayoutElementsOfPrefix(m, order, f);
    var prev := ApplyLayout(g, elems[..n - 1], f, c).value;
    ApplyLayoutSnoc(g, elems, f, c);
    assert k !in prefix;
    ApplySavedLayoutStep(g, m, prefix, k, prev.0, f, exact, prev.1);
    SnocOfPrefix(order);
  }

  /** Applying the saved overlay entries, in the saved order, to the freshly loaded nodes. */
  lemma {:induction false} ApplySavedLayout(g: Model, m: Model, order: seq<string>, f: NumberFormat, exact: real -> bool, c: nat)
    requires Faithful(f, exact) && LayoutExact(m, exact) && NodesSaveable(m)
    requires Distinct(order) && forall i | 0 <= i < |order| :: order[i] in m.nodes
    requires forall i | 0 <= i < |order| :: order[i] in g.nodes && g.nodes[order[i]] == NewNode(order[i], order[i])
    ensures var r := ApplyLayout(g, LayoutElementsOf(m, order, f), f, c);
      r.Ok? && LayoutApplied(g, r.value.0, m, order)
    decreases |order|
  {
    var n := |order|;
    if n > 0 {
      var prefix := order[..n - 1];
      assert Distinct(prefix);
      ApplySavedLayout(g, m, prefix, f, exact, c);
      ApplySavedLayoutSnoc(g, m, order, f, exact, c);
    } else {
      assert LayoutElementsOf(m, order, f) == [];
    }
  }

  /** The overlay lists one Node entry per saved node, in the saved order. */
  lemma LayoutEntriesOfSaved(m: Model, order: seq<string>, f: NumberFormat)
    requires forall i | 0 <= i < |order| :: order[i] in m.nodes
    ensures LayoutEntries(LayoutDocument(m, order, f)) == LayoutElementsOf(m, order, f)
  {
    var elems := LayoutElementsOf(m, order, f);
    var doc := LayoutDocument(m, order, f);
    assert FirstChild(doc, N("Nodes")) == Some(doc.children[0]);
    assert forall i | 0 <= i < |elems| :: elems[i].name == N("Node");
  }

  // ---------------------------------------------------------------- whole

  /** The saved structure document reads back as the saved ids, named by their ids, and the saved edge pairs. */
  lemma LoadSavedStructure(fs: FileSystem, m: Model, path: string, f: NumberFormat,
                           nodeOrder: seq<string>, edgeOrder: seq<string>, nextId: nat)
    requires Saveable(m)
    requires IsEnumeration(nodeOrder, m.nodes.Keys) && IsEnumeration(edgeOrder, m.edges.Keys)
    requires LayoutPath(path) != path
    ensures var r := LoadStructure(SaveIn(fs, m, path, f, nodeOrder, edgeOrder), path, f, nextId);
      && r.Ok? && r.value.1 == nextId
      && r.value.0.nodes == NodeMapOf(nodeOrder)
      && EdgePairs(r.value.0) == EdgePairs(m)
  {
    var fs' := SaveIn(fs, m, path, f, nodeOrder, edgeOrder);
    var doc := fs'[path];
    assert doc == StructureDocument(m, nodeOrder, edgeOrder);
    var nodesElem := Element(N("Nodes"), map[], NodeElements(m, nodeOrder));
    assert ChildrenNamed(nodesElem, N("Node")) == NodeElements(m, nodeOrder);
    LoadSavedNodes(m, nodeOrder, f, nextId);
    var g0 := Model(NodeMapOf(nodeOrder), map[], "");
    assert LinkSection(doc) == Some(Element(N("Links"), map[], LinkElements(m, edgeOrder)));
    LoadSavedLinks(g0, m, edgeOrder);
    var g1 := LoadLinks(g0, LinkElements(m, edgeOrder));
    assert LoadStructure(fs', path, f, nextId) == Ok((g1, nextId));
    PairsOfEnumeration(m, edgeOrder);
  }

  /** An overlay applied for an enumeration of the saved nodes reloads every one of them. */
  lemma AppliedToAll(g: Model, r: Model, m: Model, order: seq<string>)
    requires LayoutApplied(g, r, m, order)
    requires forall k | k in m.nodes :: k in order
    ensures AllReloaded(r.nodes, m)
  {
    forall k | k in m.nodes ensures k in r.nodes && Reloaded(r.nodes[k], m.nodes[k]) {
      var i :| 0 <= i < |order| && order[i] == k;
    }
  }

  /** With the structure read, loading applies the saved overlay entries. */
  lemma LoadSavedOverlay(fs: FileSystem, m: Model, path: string, f: NumberFormat, nodeOrder: seq<string>, nextId: nat)
    requires forall i | 0 <= i < |nodeOrder| :: nodeOrder[i] in m.nodes
    requires LoadStructure(fs, path, f, nextId).Ok? && LoadStructure(fs, path, f, nextId).value.1 == nextId
    requires LayoutPath(path) in fs && fs[LayoutPath(path)] == LayoutDocument(m, nodeOrder, f)
    ensures LoadBeforePins(fs, path, f, nextId)
      == ApplyLayout(LoadStructure(fs, path, f, nextId).value.0, LayoutElementsOf(m, nodeOrder, f), f, nextId)
  {
    LayoutEntriesOfSaved(m, nodeOrder, f);
  }

  /** The saved overlay applied to nodes freshly read from the saved structure. */
  lemma OverlayOnFreshNodes(g: Model, m: Model, order: seq<string>, f: NumberFormat, exact: real -> bool, c: nat)
    requires Faithful(f, exact) && LayoutExact(m, exact) && NodesSaveable(m)
    requires IsEnumeration(order, m.nodes.Keys) && g.nodes == NodeMapOf(order)
    ensures var r := ApplyLayout(g, LayoutElementsOf(m, order, f), f, c);
      && r.Ok?
      && r.value.0.nodes.Keys == m.nodes.Keys && r.value.0.edges == g.edges
      && AllReloaded(r.value.0.nodes, m)
  {
    NodeMapOfFresh(order);
    NodeMapOfKeys(order, m.nodes.Keys);
    ApplySavedLayout(g, m, order, f, exact, c);
    AppliedToAll(g, ApplyLayout(g, LayoutElementsOf(m, order, f), f, c).value.0, m, order);
  }

  /** Loading a file system that holds a saved structure and overlay of `m`. */
  lemma ReadBack(fs: FileSystem, m: Model, path: string, f: NumberFormat, exact: real -> bool, nodeOrder: seq<string>, nextId: nat)
    requires Faithful(f, exact) && LayoutExact(m, exact) && NodesSaveable(m)
    requires IsEnumeration(nodeOrder, m.nodes.Keys)
    requires var r := LoadStructure(fs, path, f, nextId);
      r.Ok? && r.value.1 == nextId && r.value.0.nodes == NodeMapOf(nodeOrder)
    requires LayoutPath(path) in fs && fs[LayoutPath(path)] == LayoutDocument(m, nodeOrder, f)
    ensures var r := LoadBeforePins(fs, path, f, nextId);
      && r.Ok?
      && r.value.0.nodes.Keys == m.nodes.Keys
      && r.value.0.edges == LoadStructure(fs, path, f, nextId).value.0.edges
      && AllReloaded(r.value.0.nodes, m)
  {
    LoadSavedOverlay(fs, m, path, f, nodeOrder, nextId);
    OverlayOnFreshNodes(LoadStructure(fs, path, f, nextId).value.0, m, nodeOrder, f, exact, nextId);
  }

  /**
   * Saving a model and loading it back (up to the completion of missing
   * pins) gives the same node ids and edge pairs, and every node reloaded
   * as `Reloaded` describes, whatever orders the save enumerated in.
   */
  lemma SaveThenLoad(fs: FileSystem, m: Model, path: string, f: NumberFormat, exact: real -> bool,
                     nodeOrder: seq<string>, edgeOrder: seq<string>, nextId: nat)
    requires Faithful(f, exact) && LayoutExact(m, exact) && Saveable(m)
    requires IsEnumeration(nodeOrder, m.nodes.Keys) && IsEnumeration(edgeOrder, m.edges.Keys)
    requires LayoutPath(path) != path
    ensures var r := LoadBeforePins(SaveIn(fs, m, path, f, nodeOrder, edgeOrder), path, f, nextId);
      && r.Ok?
      && r.value.0.nodes.Keys == m.nodes.Keys
      && EdgePairs(r.value.0) == EdgePairs(m)
      && AllReloaded(r.value.0.nodes, m)
  {
    LoadSavedStructure(fs, m, path, f, nodeOrder, edgeOrder, nextId);
    assert NodesSaveable(m);
    ReadBack(SaveIn(fs, m, path, f, nodeOrder, edgeOrder), m, path, f, exact, nodeOrder, nextId);
  }
}
