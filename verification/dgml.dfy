/**
 * Parsed DGML documents: elements with a namespaced name, an attribute map
 * and ordered children, and a file system holding one parsed document (its
 * root element) per path. Number text is read and written through an
 * injected codec, since float formatting and parsing are library calls.
 */
module Dgml {
  import opened Base

  /** The DGML vocabulary namespace. */
  const Namespace := "http://schemas.microsoft.com/vs/2009/dgml"

  datatype XName = XName(ns: string, local: string)

  datatype Element = Element(name: XName, attrs: map<string, string>, children: seq<Element>)

  /** Parsed documents by path; a path not in the map is a missing file. */
  type FileSystem = map<string, Element>

  /** A name in the DGML namespace. */
  function N(local: string): XName {
    XName(Namespace, local)
  }

  /** `element.Attribute(name)?.Value`. */
  function Attr(e: Element, name: string): (v: Option<string>)
    ensures v.Some? <==> name in e.attrs
    ensures v.Some? ==> v.value == e.attrs[name]
  {
    if name in e.attrs then Some(e.attrs[name]) else None
  }

  /** `container.Element(name)`: the first child with that name, if any. */
  function FirstNamed(s: seq<Element>, name: XName): (r: Option<Element>)
    ensures r.None? <==> forall i | 0 <= i < |s| :: s[i].name != name
    ensures r.Some? ==> r.value.name == name && r.value in s
    ensures r.Some? && |s| > 0 && s[0].name == name ==> r.value == s[0]
  {
    if |s| == 0 then None
    else if s[0].name == name then Some(s[0])
    else FirstNamed(s[1..], name)
  }

  /** `container.Elements(name)`: the children with that name, in document order. */
  function Named(s: seq<Element>, name: XName): (r: seq<Element>)
    ensures |r| <= |s|
    ensures forall i | 0 <= i < |r| :: r[i].name == name && r[i] in s
    ensures (forall i | 0 <= i < |s| :: s[i].name == name) ==> r == s
    decreases |s|
  {
    if |s| == 0 then []
    else Named(s[..|s| - 1], name) + (if s[|s| - 1].name == name then [s[|s| - 1]] else [])
  }

  function FirstChild(e: Element, name: XName): Option<Element> {
    FirstNamed(e.children, name)
  }

  function ChildrenNamed(e: Element, name: XName): seq<Element> {
    Named(e.children, name)
  }

  /** The culture-dependent number text conversions, as parameters. */
  datatype NumberFormat = NumberFormat(
    formatReal: real -> string,
    parseReal: string -> Option<real>,
    parseInt: string -> Option<int>)

  /**
   * A codec under which the numbers of `exact` read back: for those,
   * formatting never emits the ',' the serializer uses as separator and
   * parsing inverts formatting; and "0" reads as 0. No codec can do this
   * for every real (text is countable), so `exact` names the values it
   * round-trips: for .NET's `float.ToString` and `float.Parse`, the values
   * of `float`.
   */
  ghost predicate Faithful(f: NumberFormat, exact: real -> bool) {
    && (forall r: real | exact(r) :: f.parseReal(f.formatReal(r)) == Some(r))
    && (forall r: real | exact(r) :: ',' !in f.formatReal(r))
    && f.parseInt("0") == Some(0)
  }

  function ParseReal(f: NumberFormat, text: string): (r: Result<real>)
    ensures r.Ok? <==> f.parseReal(text).Some?
    ensures r.Ok? ==> r.value == f.parseReal(text).value
    ensures r.Err? ==> r.error == BadNumber(text)
  {
    match f.parseReal(text)
    case Some(v) => Ok(v)
    case None => Err(BadNumber(text))
  }

  function ParseInt(f: NumberFormat, text: string): (r: Result<int>)
    ensures r.Ok? <==> f.parseInt(text).Some?
    ensures r.Ok? ==> r.value == f.parseInt(text).value
    ensures r.Err? ==> r.error == BadNumber(text)
  {
    match f.parseInt(text)
    case Some(v) => Ok(v)
    case None => Err(BadNumber(text))
  }
}

/**
 * The DGML serializer of the main model: a structure document (.dgml) with
 * Node and Link entries, and a layout overlay (.dgml-layout) with
 * positions, sizes and pins.
 */
module DgmlSerializer {
  import opened Base
  import opened Text
  import opened Ids
  import opened Geometry
  import opened Pins
  import opened Nodes
  import opened Edges
  import opened Graphs
  import opened Paths
  import opened Enumeration
  import opened Dgml

  /** The overlay's path: the structure path with its extension changed to "dgml-layout". */
  function LayoutPath(path: string): (p: string)
    ensures |path| > 0 ==> Stem(path) <= p && p[|Stem(path)|..] == ".dgml-layout"
  {
    ChangeExtension(path, "dgml-layout")
  }

  // ---------------------------------------------------------------- saving

  function NodeElement(n: Node): Element {
    Element(N("Node"), map["Id" := n.id, "Label" := n.name], [])
  }

  /** A Link names the endpoint nodes only; pin ids are not written. */
  function LinkElement(e: Edge): Element {
    Element(N("Link"), map["Source" := e.sourceNodeId, "Target" := e.targetNodeId], [])
  }

  function NodeElements(m: Model, order: seq<string>): (r: seq<Element>)
    requires forall i | 0 <= i < |order| :: order[i] in m.nodes
    ensures |r| == |order|
    ensures forall i | 0 <= i < |order| :: r[i] == NodeElement(m.nodes[order[i]])
  {
    seq(|order|, i requires 0 <= i < |order| => NodeElement(m.nodes[order[i]]))
  }

  function LinkElements(m: Model, order: seq<string>): (r: seq<Element>)
    requires forall i | 0 <= i < |order| :: order[i] in m.edges
    ensures |r| == |order|
    ensures forall i | 0 <= i < |order| :: r[i] == LinkElement(m.edges[order[i]])
  {
    seq(|order|, i requires 0 <= i < |order| => LinkElement(m.edges[order[i]]))
  }

  /** The structure document, listing nodes and edges in the given enumeration orders. */
  function StructureDocument(m: Model, nodeOrder: seq<string>, edgeOrder: seq<string>): (doc: Element)
    requires forall i | 0 <= i < |nodeOrder| :: nodeOrder[i] in m.nodes
    requires forall i | 0 <= i < |edgeOrder| :: edgeOrder[i] in m.edges
    ensures doc.name == N("DirectedGraph")
    ensures FirstChild(doc, N("Nodes")) == Some(Element(N("Nodes"), map[], NodeElements(m, nodeOrder)))
    ensures FirstChild(doc, N("Links")) == Some(Element(N("Links"), map[], LinkElements(m, edgeOrder)))
    ensures var nodes := ChildrenNamed(FirstChild(doc, N("Nodes")).value, N("Node"));
      && |nodes| == |nodeOrder|
      && forall i | 0 <= i < |nodeOrder| ::
           Attr(nodes[i], "Id") == Some(m.nodes[nodeOrder[i]].id)
           && Attr(nodes[i], "Label") == Some(m.nodes[nodeOrder[i]].name)
    ensures var links := FirstChild(doc, N("Links")).value.children;
      && |links| == |edgeOrder|
      && forall i | 0 <= i < |edgeOrder| ::
           Attr(links[i], "Source") == Some(m.edges[edgeOrder[i]].sourceNodeId)
           && Attr(links[i], "Target") == Some(m.edges[edgeOrder[i]].targetNodeId)
  {
    var children := [Element(N("Nodes"), map[], NodeElements(m, nodeOrder)), Element(N("Links"), map[], LinkElements(m, edgeOrder))];
    assert N("Nodes") != N("Links") by { assert "Nodes"[0] != "Links"[0]; }
    assert children[1..] == [children[1]];
    assert FirstNamed(children, N("Links")) == Some(children[1]);
    Element(N("DirectedGraph"), map[], children)
  }

  /** Three numbers joined by ','. */
  function FormatTriple(f: NumberFormat, a: real, b: real, c: real): string {
    f.formatReal(a) + "," + f.formatReal(b) + "," + f.formatReal(c)
  }

  /** The size the overlay records: the first input pin's, else zero. */
  function LayoutSize(n: Node): (s: Size3)
    ensures |n.inputs| > 0 ==> s == n.inputs[0].size
    ensures |n.inputs| == 0 ==> s == Size3(0.0, 0.0, 0.0)
  {
    if |n.inputs| > 0 then n.inputs[0].size else Size3(0.0, 0.0, 0.0)
  }

  /** The enum member name a direction is written as. */
  function DirectionName(d: Direction): string {
    if d == Input then "Input" else "Output"
  }

  /** A layout Pin records the pin's id and direction; its index is not written. */
  function PinElement(p: Pin): Element {
    Element(N("Pin"), map["Id" := p.id, "Direction" := DirectionName(p.direction)], [])
  }

  function PinElements(pins: seq<Pin>): (r: seq<Element>)
    ensures |r| == |pins|
    ensures forall i | 0 <= i < |pins| :: r[i] == PinElement(pins[i])
  {
    seq(|pins|, i requires 0 <= i < |pins| => PinElement(pins[i]))
  }

  function LayoutNodeElement(f: NumberFormat, n: Node): (e: Element)
    ensures e.name == N("Node") && Attr(e, "Id") == Some(n.id)
    ensures Attr(e, "Position") == Some(FormatTriple(f, n.position.x, n.position.y, n.position.z))
    ensures Attr(e, "Size") == Some(FormatTriple(f, LayoutSize(n).width, LayoutSize(n).height, LayoutSize(n).depth))
    ensures ChildrenNamed(e, N("Pin")) == PinElements(AllPins(n))
  {
    var size := LayoutSize(n);
    Element(N("Node"),
      map["Id" := n.id, "Layout" := "Fixed",
          "Position" := FormatTriple(f, n.position.x, n.position.y, n.position.z),
          "Size" := FormatTriple(f, size.width, size.height, size.depth)],
      PinElements(AllPins(n)))
  }

  function LayoutElementsOf(m: Model, nodeOrder: seq<string>, f: NumberFormat): (r: seq<Element>)
    requires forall i | 0 <= i < |nodeOrder| :: nodeOrder[i] in m.nodes
    ensures |r| == |nodeOrder|
    ensures forall i | 0 <= i < |nodeOrder| :: r[i] == LayoutNodeElement(f, m.nodes[nodeOrder[i]])
  {
    seq(|nodeOrder|, i requires 0 <= i < |nodeOrder| => LayoutNodeElement(f, m.nodes[nodeOrder[i]]))
  }

  function LayoutDocument(m: Model, nodeOrder: seq<string>, f: NumberFormat): Element
    requires forall i | 0 <= i < |nodeOrder| :: nodeOrder[i] in m.nodes
  {
    Element(N("DirectedGraph"), map[], [Element(N("Nodes"), map[], LayoutElementsOf(m, nodeOrder, f))])
  }

  /** `SaveAsDgml` with the enumeration orders given: the structure file, then the overlay beside it. */
  function SaveIn(fs: FileSystem, m: Model, path: string, f: NumberFormat, nodeOrder: seq<string>, edgeOrder: seq<string>): (fs': FileSystem)
    requires IsEnumeration(nodeOrder, m.nodes.Keys)
    requires IsEnumeration(edgeOrder, m.edges.Keys)
    ensures fs'.Keys == fs.Keys + {path, LayoutPath(path)}
    ensures fs'[LayoutPath(path)] == LayoutDocument(m, nodeOrder, f)
    ensures LayoutPath(path) != path ==> fs'[path] == StructureDocument(m, nodeOrder, edgeOrder)
    ensures forall p | p in fs && p != path && p != LayoutPath(path) :: fs'[p] == fs[p]
  {
    fs[path := StructureDocument(m, nodeOrder, edgeOrder)][LayoutPath(path) := LayoutDocument(m, nodeOrder, f)]
  }

  method SaveAsDgml(fs: FileSystem, m: Model, path: string, f: NumberFormat) returns (fs': FileSystem)
    ensures fs'.Keys == fs.Keys + {path, LayoutPath(path)}
    ensures exists nodeOrder, edgeOrder ::
      && IsEnumeration(nodeOrder, m.nodes.Keys) && IsEnumeration(edgeOrder, m.edges.Keys)
      && fs' == SaveIn(fs, m, path, f, nodeOrder, edgeOrder)
  {
    var nodeOrder := Enumerate(m.nodes.Keys);
    var edgeOrder := Enumerate(m.edges.Keys);
    fs' := SaveIn(fs, m, path, f, nodeOrder, edgeOrder);
  }

  // --------------------------------------------------------------- loading

  /**
   * The pin size a Bounds value "x,y,w,h" gives: (w, h, 0) when it has at
   * least four comma-separated parts and the first four parse; none for an
   * absent or empty value or any other text.
   */
  function BoundsSize(bounds: Option<string>, f: NumberFormat): (sz: Option<Size3>)
    ensures sz.Some? <==>
      && bounds.Some? && bounds.value != ""
      && var parts := Split(bounds.value, ',');
         && |parts| >= 4
         && f.parseReal(parts[0]).Some? && f.parseReal(parts[1]).Some?
         && f.parseReal(parts[2]).Some? && f.parseReal(parts[3]).Some?
    ensures sz.Some? ==>
      var parts := Split(bounds.value, ',');
      sz.value == Size3(f.parseReal(parts[2]).value, f.parseReal(parts[3]).value, 0.0)
  {
    if bounds.None? || bounds.value == "" then None
    else
      var parts := Split(bounds.value, ',');
      if |parts| >= 4 && f.parseReal(parts[0]).Some? && f.parseReal(parts[1]).Some?
         && f.parseReal(parts[2]).Some? && f.parseReal(parts[3]).Some?
      then Some(Size3(f.parseReal(parts[2]).value, f.parseReal(parts[3]).value, 0.0))
      else None
  }

  /**
   * One structure Node entry: skipped when its Id is missing or blank,
   * otherwise find-or-added (its Label is not applied). A usable Bounds
   * value appends an input pin of index 0 with the bounds' size; the node's
   * position and size are not set from it.
   */
  function LoadNode(g: Model, e: Element, f: NumberFormat, nextId: nat): (r: (Model, nat))
    ensures IsNullOrWhiteSpace(Attr(e, "Id")) ==> r == (g, nextId)
    ensures !IsNullOrWhiteSpace(Attr(e, "Id")) ==>
      && r.0.nodes.Keys == g.nodes.Keys + {Attr(e, "Id").value}
      && (forall k | k in g.nodes && k != Attr(e, "Id").value :: r.0.nodes[k] == g.nodes[k])
    ensures !IsNullOrWhiteSpace(Attr(e, "Id")) && BoundsSize(Attr(e, "Bounds"), f).None? ==>
      r == (FindOrAddNode(g, Attr(e, "Id").value, None).0, nextId)
    ensures !IsNullOrWhiteSpace(Attr(e, "Id")) && BoundsSize(Attr(e, "Bounds"), f).Some? ==>
      var id := Attr(e, "Id").value;
      var n := FindOrAddNode(g, id, None).1;
      && r.1 == nextId + 1
      && r.0.nodes[id] == n.(inputs := n.inputs + [NewPin(MintId(nextId), 0, Input, n.id).(size := BoundsSize(Attr(e, "Bounds"), f).value)])
    ensures r.0.edges == g.edges && r.0.filePath == g.filePath
    ensures NodesKeyed(g) ==> NodesKeyed(r.0)
    ensures nextId <= r.1 <= nextId + 1
  {
    var id := Attr(e, "Id");
    if IsNullOrWhiteSpace(id) then (g, nextId)
    else
      var (g1, node) := FindOrAddNode(g, id.value, None);
      var size := BoundsSize(Attr(e, "Bounds"), f);
      if size.None? then (g1, nextId)
      else
        var pin := NewPin(MintId(nextId), 0, Input, node.id).(size := size.value);
        (g1.(nodes := g1.nodes[id.value := node.(inputs := node.inputs + [pin])]), nextId + 1)
  }

  /** The structure Node entries in document order. */
  function LoadNodes(g: Model, elems: seq<Element>, f: NumberFormat, nextId: nat): (r: (Model, nat))
    ensures r.0.edges == g.edges && r.0.filePath == g.filePath
    ensures g.nodes.Keys <= r.0.nodes.Keys
    ensures NodesKeyed(g) ==> NodesKeyed(r.0)
    ensures nextId <= r.1
    decreases |elems|
  {
    if |elems| == 0 then (g, nextId)
    else
      var (g1, k) := LoadNodes(g, elems[..|elems| - 1], f, nextId);
      LoadNode(g1, elems[|elems| - 1], f, k)
  }

  /** Both endpoint attributes present and not blank. */
  predicate LinkUsable(e: Element) {
    !IsNullOrWhiteSpace(Attr(e, "Source")) && !IsNullOrWhiteSpace(Attr(e, "Target"))
  }

  /** The Link entries in document order, each find-or-adding its edge. */
  function LoadLinks(g: Model, elems: seq<Element>): (r: Model)
    ensures r.filePath == g.filePath
    ensures g.nodes.Keys <= r.nodes.Keys && g.edges.Keys <= r.edges.Keys
    ensures forall k | k in g.nodes :: r.nodes[k] == g.nodes[k]
    ensures forall k | k in g.edges :: r.edges[k] == g.edges[k]
    ensures (forall i | 0 <= i < |elems| :: !LinkUsable(elems[i])) ==> r == g
    ensures NodesKeyed(g) ==> NodesKeyed(r)
    decreases |elems|
  {
    if |elems| == 0 then g
    else
      var g1 := LoadLinks(g, elems[..|elems| - 1]);
      var e := elems[|elems| - 1];
      if LinkUsable(e) then FindOrAddEdge(g1, Attr(e, "Source").value, Attr(e, "Target").value).0
      else g1
  }

  /** The link section: "Links" when present, otherwise "Edges". */
  function LinkSection(root: Element): Option<Element> {
    match FirstChild(root, N("Links"))
    case Some(l) => Some(l)
    case None => FirstChild(root, N("Edges"))
  }

  /** The structure document: nodes, then links. */
  function LoadStructure(fs: FileSystem, path: string, f: NumberFormat, nextId: nat): (r: Result<(Model, nat)>)
    ensures path !in fs ==> r == Err(FileNotFound(path))
    ensures path in fs && FirstChild(fs[path], N("Nodes")).None? ==> r == Err(NoNodes(path))
    ensures path in fs && FirstChild(fs[path], N("Nodes")).Some? ==> r.Ok?
    ensures r.Ok? ==> NodesKeyed(r.value.0) && nextId <= r.value.1 && r.value.0.filePath == ""
  {
    if path !in fs then Err(FileNotFound(path))
    else
      var root := fs[path];
      match FirstChild(root, N("Nodes"))
      case None => Err(NoNodes(path))
      case Some(nodes) =>
        var (g, k) := LoadNodes(Graphs.Empty, ChildrenNamed(nodes, N("Node")), f, nextId);
        var g2 := match LinkSection(root)
          case Some(links) => LoadLinks(g, links.children)
          case None => g;
        Ok((g2, k))
  }

  /** Three comma-separated numbers; the third is optional and defaults to 0. */
  function ParseTriple(f: NumberFormat, text: string): (r: Result<(real, real, real)>)
    ensures |Split(text, ',')| < 2 ==> r.Err?
    ensures var parts := Split(text, ',');
      r.Ok? <==> && 2 <= |parts|
                 && f.parseReal(parts[0]).Some? && f.parseReal(parts[1]).Some?
                 && (|parts| > 2 ==> f.parseReal(parts[2]).Some?)
    ensures var parts := Split(text, ',');
      r.Ok? ==> && r.value.0 == f.parseReal(parts[0]).value
                && r.value.1 == f.parseReal(parts[1]).value
                && r.value.2 == (if |parts| > 2 then f.parseReal(parts[2]).value else 0.0)
  {
    var parts := Split(text, ',');
    var x :- ParseReal(f, parts[0]);
    if |parts| < 2 then Err(MissingPart(text))
    else
      var y :- ParseReal(f, parts[1]);
      var z :- if |parts| > 2 then ParseReal(f, parts[2]) else Ok(0.0);
      Ok((x, y, z))
  }

  /** The overlay's Position, when present and non-empty. */
  function WithLayoutPosition(n: Node, e: Element, f: NumberFormat): (r: Result<Node>)
    ensures r.Ok? ==> r.value == n.(position := r.value.position)
    ensures Attr(e, "Position").None? || Attr(e, "Position") == Some("") ==> r == Ok(n)
  {
    var text := Attr(e, "Position");
    if text.None? || text.value == "" then Ok(n)
    else
      var t :- ParseTriple(f, text.value);
      Ok(n.(position := Point3(t.0, t.1, t.2)))
  }

  /** The overlay's Size, when present and non-empty, becomes the node's size. */
  function WithLayoutSize(n: Node, e: Element, f: NumberFormat): (r: Result<Node>)
    ensures r.Ok? ==> r.value == n.(size := r.value.size)
    ensures Attr(e, "Size").None? || Attr(e, "Size") == Some("") ==> r == Ok(n)
  {
    var text := Attr(e, "Size");
    if text.None? || text.value == "" then Ok(n)
    else
      var t :- ParseTriple(f, text.value);
      Ok(n.(size := Some(Size3(t.0, t.1, t.2))))
  }

  /** An overlay Pin's direction: "Output" in any letter case, else Input. */
  function LayoutDirection(e: Element): Direction {
    if EqualsIgnoreCase(Attr(e, "Direction").GetOr("Input"), "Output") then Output else Input
  }

  /**
   * The overlay's Pin entries, each appended (not inserted, not reindexed)
   * to the side its Direction names, with index Index (default "0") and a
   * newly minted id; the saved pin Id is not read.
   */
  function AddLayoutPins(n: Node, pins: seq<Element>, f: NumberFormat, nextId: nat): (r: Result<(Node, nat)>)
    ensures r.Ok? ==> r.value.0 == n.(inputs := r.value.0.inputs, outputs := r.value.0.outputs)
    ensures r.Ok? ==> n.inputs <= r.value.0.inputs && n.outputs <= r.value.0.outputs
    ensures r.Ok? ==> r.value.1 == nextId + |pins|
    ensures r.Ok? ==> |r.value.0.inputs| + |r.value.0.outputs| == |n.inputs| + |n.outputs| + |pins|
    decreases |pins|
  {
    if |pins| == 0 then Ok((n, nextId))
    else
      var prev :- AddLayoutPins(n, pins[..|pins| - 1], f, nextId);
      var (n1, k) := prev;
      var e := pins[|pins| - 1];
      var index :- ParseInt(f, Attr(e, "Index").GetOr("0"));
      var d := LayoutDirection(e);
      var pin := NewPin(MintId(k), index, d, n1.id);
      Ok((WithSide(n1, d, Side(n1, d) + [pin]), k + 1))
  }

  /** One overlay Node entry, applied only to a node that is already loaded. */
  function ApplyLayoutNode(g: Model, e: Element, f: NumberFormat, nextId: nat): (r: Result<(Model, nat)>)
    ensures Attr(e, "Id").None? || Attr(e, "Id").value !in g.nodes ==> r == Ok((g, nextId))
    ensures r.Ok? ==> r.value.0.nodes.Keys == g.nodes.Keys && r.value.0.edges == g.edges
    ensures r.Ok? ==> r.value.0.filePath == g.filePath && nextId <= r.value.1
    ensures r.Ok? ==> forall k | k in g.nodes && Some(k) != Attr(e, "Id") :: r.value.0.nodes[k] == g.nodes[k]
    ensures r.Ok? ==> forall k | k in g.nodes :: r.value.0.nodes[k].id == g.nodes[k].id
  {
    var id := Attr(e, "Id");
    if id.None? || id.value !in g.nodes then Ok((g, nextId))
    else
      var n := g.nodes[id.value];
      var n1 :- WithLayoutPosition(n, e, f);
      var n2 :- WithLayoutSize(n1, e, f);
      var added :- AddLayoutPins(n2, ChildrenNamed(e, N("Pin")), f, nextId);
      Ok((g.(nodes := g.nodes[id.value := added.0]), added.1))
  }

  /** The overlay's Node entries in document order; the first failure aborts. */
  function ApplyLayout(g: Model, elems: seq<Element>, f: NumberFormat, nextId: nat): (r: Result<(Model, nat)>)
    ensures r.Ok? ==> r.value.0.nodes.Keys == g.nodes.Keys && r.value.0.edges == g.edges
    ensures r.Ok? ==> r.value.0.filePath == g.filePath && nextId <= r.value.1
    ensures r.Ok? ==> forall k | k in g.nodes :: r.value.0.nodes[k].id == g.nodes[k].id
    decreases |elems|
  {
    if |elems| == 0 then Ok((g, nextId))
    else
      var prev :- ApplyLayout(g, elems[..|elems| - 1], f, nextId);
      ApplyLayoutNode(prev.0, elems[|elems| - 1], f, prev.1)
  }

  /** The overlay's Node entries, or none when it has no Nodes section. */
  function LayoutEntries(root: Element): seq<Element> {
    match FirstChild(root, N("Nodes"))
    case Some(nodes) => ChildrenNamed(nodes, N("Node"))
    case None => []
  }

  /** Everything `LoadFromDgml` does before completing missing pins. */
  function LoadBeforePins(fs: FileSystem, path: string, f: NumberFormat, nextId: nat): (r: Result<(Model, nat)>)
    ensures LoadStructure(fs, path, f, nextId).Err? ==> r == LoadStructure(fs, path, f, nextId)
    ensures LayoutPath(path) !in fs ==> r == LoadStructure(fs, path, f, nextId)
    ensures r.Ok? ==> NodesKeyed(r.value.0) && nextId <= r.value.1
  {
    var s :- LoadStructure(fs, path, f, nextId);
    if LayoutPath(path) !in fs then Ok(s)
    else ApplyLayout(s.0, LayoutEntries(fs[LayoutPath(path)]), f, s.1)
  }

  /** Edges whose target is the node id: `Edges.Count(e => e.Value.TargetNodeId == id)`. */
  function CountIncoming(edges: map<string, Edge>, id: string): nat {
    |set k | k in edges && edges[k].targetNodeId == id|
  }

  function CountOutgoing(edges: map<string, Edge>, id: string): nat {
    |set k | k in edges && edges[k].sourceNodeId == id|
  }

  /** `count` fresh pins of direction `d`, indexed 0..count-1, ids minted from `nextId` on. */
  function FreshPins(count: nat, d: Direction, nodeId: string, nextId: nat): (pins: seq<Pin>)
    ensures |pins| == count && Contiguous(pins)
    ensures forall i | 0 <= i < count :: pins[i] == NewPin(MintId(nextId + i), i, d, nodeId)
  {
    var pins := seq(count, i requires 0 <= i < count => NewPin(MintId(nextId + i), i, d, nodeId));
    forall i | 0 <= i < count ensures pins[i].index == i {
      assert pins[i] == NewPin(MintId(nextId + i), i, d, nodeId);
    }
    pins
  }

  /** A node with no inputs gets one per incoming edge, and likewise outputs per outgoing edge. */
  function CompleteNodePins(n: Node, edges: map<string, Edge>, nextId: nat): (r: (Node, nat))
    ensures r.0.id == n.id && r.0.name == n.name && r.0.position == n.position && r.0.size == n.size
    ensures |n.inputs| > 0 ==> r.0.inputs == n.inputs
    ensures |n.inputs| == 0 ==> r.0.inputs == FreshPins(CountIncoming(edges, n.id), Input, n.id, nextId)
    ensures |n.outputs| > 0 ==> r.0.outputs == n.outputs
    ensures nextId <= r.1
  {
    var (ins, k) := if |n.inputs| == 0 then
        var c := CountIncoming(edges, n.id);
        (FreshPins(c, Input, n.id, nextId), nextId + c)
      else (n.inputs, nextId);
    var (outs, k2) := if |n.outputs| == 0 then
        var c := CountOutgoing(edges, n.id);
        (FreshPins(c, Output, n.id, k), k + c)
      else (n.outputs, k);
    (n.(inputs := ins, outputs := outs), k2)
  }

  /** What completing missing pins promises about one node. */
  predicate PinsCompleted(before: Node, after: Node, edges: map<string, Edge>) {
    && after == before.(inputs := after.inputs, outputs := after.outputs)
    && (|before.inputs| > 0 ==> after.inputs == before.inputs)
    && (|before.inputs| == 0 ==>
          |after.inputs| == CountIncoming(edges, before.id) && Contiguous(after.inputs)
          && forall i | 0 <= i < |after.inputs| ::
               after.inputs[i].direction == Input && after.inputs[i].nodeId == before.id)
    && (|before.outputs| > 0 ==> after.outputs == before.outputs)
    && (|before.outputs| == 0 ==>
          |after.outputs| == CountOutgoing(edges, before.id) && Contiguous(after.outputs)
          && forall i | 0 <= i < |after.outputs| ::
               after.outputs[i].direction == Output && after.outputs[i].nodeId == before.id)
  }

  /** The completion pass over the nodes in the given enumeration order. */
  function AddMissingPins(g: Model, order: seq<string>, nextId: nat): (r: (Model, nat))
    requires forall i | 0 <= i < |order| :: order[i] in g.nodes
    requires Distinct(order)
    ensures r.0.nodes.Keys == g.nodes.Keys && r.0.edges == g.edges && r.0.filePath == g.filePath
    ensures forall k | k in g.nodes && k !in order :: r.0.nodes[k] == g.nodes[k]
    ensures forall k | k in order :: PinsCompleted(g.nodes[k], r.0.nodes[k], g.edges)
    ensures nextId <= r.1
    decreases |order|
  {
    if |order| == 0 then (g, nextId)
    else
      var last := order[|order| - 1];
      var (g1, k) := AddMissingPins(g, order[..|order| - 1], nextId);
      assert last !in order[..|order| - 1];
      var (n, k2) := CompleteNodePins(g1.nodes[last], g1.edges, k);
      (g1.(nodes := g1.nodes[last := n]), k2)
  }

  /**
   * `LoadFromDgml`: the structure document, then, only if the overlay file
   * exists, the overlay followed by the completion of missing pins. The
   * second result is the id counter after the pins minted.
   */
  method LoadFromDgml(fs: FileSystem, path: string, f: NumberFormat, nextId: nat) returns (r: Result<Model>, next: nat)
    ensures LoadBeforePins(fs, path, f, nextId).Err? ==> r == Err(LoadBeforePins(fs, path, f, nextId).error)
    ensures LoadBeforePins(fs, path, f, nextId).Ok? ==> r.Ok?
    ensures r.Ok? && LayoutPath(path) !in fs ==> r.value == LoadBeforePins(fs, path, f, nextId).value.0
    ensures r.Ok? && LayoutPath(path) in fs ==>
      var before := LoadBeforePins(fs, path, f, nextId).value.0;
      && r.value.nodes.Keys == before.nodes.Keys && r.value.edges == before.edges
      && r.value.filePath == before.filePath
      && forall k | k in before.nodes :: PinsCompleted(before.nodes[k], r.value.nodes[k], before.edges)
    ensures nextId <= next
  {
    var b := LoadBeforePins(fs, path, f, nextId);
    if b.Err? {
      return Err(b.error), nextId;
    }
    var (g, k) := b.value;
    if LayoutPath(path) !in fs {
      return Ok(g), k;
    }
    var order := Enumerate(g.nodes.Keys);
    var (g', k') := AddMissingPins(g, order, k);
    return Ok(g'), k';
  }
}
