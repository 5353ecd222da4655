/**
 * A graph node with ordered input and output pin lists: append, clamped
 * insert, removal by pin identity, reindexing and pin lookup.
 */
module Nodes {
  import opened Base
  import opened Geometry
  import opened Pins
  import opened Enumeration

  datatype Node = Node(
    id: string,
    name: string,
    position: Point3,
    size: Option<Size3>,
    inputs: seq<Pin>,
    outputs: seq<Pin>)

  /** A new node sits at the origin with no size and no pins. */
  function NewNode(id: string, name: string): (n: Node)
    ensures n.id == id && n.name == name && n.position == Origin3 && n.size == None
    ensures n.inputs == [] && n.outputs == []
  {
    Node(id, name, Origin3, None, [], [])
  }

  /** The pin list on side `d`. */
  function Side(n: Node, d: Direction): seq<Pin> {
    if d == Input then n.inputs else n.outputs
  }

  function WithSide(n: Node, d: Direction, pins: seq<Pin>): (r: Node)
    ensures Side(r, d) == pins
    ensures Side(r, Opposite(d)) == Side(n, Opposite(d))
    ensures r.id == n.id && r.name == n.name && r.position == n.position && r.size == n.size
  {
    if d == Input then n.(inputs := pins) else n.(outputs := pins)
  }

  function Opposite(d: Direction): Direction {
    if d == Input then Output else Input
  }

  /** The pin ids of a list, in list order. */
  function Ids(pins: seq<Pin>): (ids: seq<string>)
    ensures |ids| == |pins|
    ensures forall i | 0 <= i < |pins| :: ids[i] == pins[i].id
  {
    seq(|pins|, i requires 0 <= i < |pins| => pins[i].id)
  }

  lemma {:induction false} IdsAppend(a: seq<Pin>, b: seq<Pin>)
    ensures Ids(a + b) == Ids(a) + Ids(b)
  {
    assert forall i | 0 <= i < |a + b| :: Ids(a + b)[i] == (Ids(a) + Ids(b))[i];
  }

  /** Every pin's index equals its position in the list. */
  predicate Contiguous(pins: seq<Pin>) {
    forall i | 0 <= i < |pins| :: pins[i].index == i
  }

  /** Two lists that hold the same pins apart from their indexes. */
  predicate SameButIndex(a: seq<Pin>, b: seq<Pin>) {
    |a| == |b| && forall i | 0 <= i < |a| :: a[i].(index := 0) == b[i].(index := 0)
  }

  /** Rewrites every pin's index to its list position. */
  function Reindex(pins: seq<Pin>): (r: seq<Pin>)
    ensures Contiguous(r) && SameButIndex(r, pins)
    ensures Ids(r) == Ids(pins)
    ensures Contiguous(pins) ==> r == pins
  {
    seq(|pins|, i requires 0 <= i < |pins| => pins[i].(index := i))
  }

  /** `Clamp(value, min, max)` for `min <= max`. */
  function Clamp(value: int, min: int, max: int): (r: int)
    requires min <= max
    ensures min <= r <= max
    ensures min <= value <= max ==> r == value
    ensures value < min ==> r == min
    ensures max < value ==> r == max
  {
    if value < min then min else if value > max then max else value
  }

  /** Position of the first pin with identifier `pinId`. */
  function IndexOfId(pins: seq<Pin>, pinId: string): (k: Option<nat>)
    ensures k.None? <==> pinId !in Ids(pins)
    ensures k.Some? ==> k.value < |pins| && pins[k.value].id == pinId
    ensures k.Some? ==> forall j | 0 <= j < k.value :: pins[j].id != pinId
  {
    if |pins| == 0 then None
    else if pins[0].id == pinId then Some(0)
    else
      match IndexOfId(pins[1..], pinId)
      case None => None
      case Some(j) => Some(j + 1)
  }

  /** The first occurrence is the one `IndexOfId` reports. */
  lemma {:induction false} IndexOfIdAt(pins: seq<Pin>, pinId: string, k: nat)
    requires k < |pins| && pins[k].id == pinId
    requires forall j | 0 <= j < k :: pins[j].id != pinId
    ensures IndexOfId(pins, pinId) == Some(k)
  {
    var r := IndexOfId(pins, pinId);
    assert Ids(pins)[k] == pinId;
  }

  /** Searching a concatenation searches the first part, then the second. */
  lemma IndexOfIdAppend(a: seq<Pin>, b: seq<Pin>, pinId: string)
    ensures IndexOfId(a, pinId).Some? ==> IndexOfId(a + b, pinId) == IndexOfId(a, pinId)
    ensures IndexOfId(a, pinId).None? && IndexOfId(b, pinId).Some? ==>
      IndexOfId(a + b, pinId) == Some(|a| + IndexOfId(b, pinId).value)
    ensures IndexOfId(a, pinId).None? && IndexOfId(b, pinId).None? ==> IndexOfId(a + b, pinId).None?
  {
    if IndexOfId(a, pinId).Some? {
      IndexOfIdInPrefix(a, b, pinId);
    } else if IndexOfId(b, pinId).Some? {
      IndexOfIdInSuffix(a, b, pinId);
    } else {
      IdsAppend(a, b);
    }
  }

  lemma {:induction false} IndexOfIdInPrefix(a: seq<Pin>, b: seq<Pin>, pinId: string)
    requires IndexOfId(a, pinId).Some?
    ensures IndexOfId(a + b, pinId) == IndexOfId(a, pinId)
  {
    var k := IndexOfId(a, pinId).value;
    var ab := a + b;
    assert forall j | 0 <= j <= k :: ab[j] == a[j];
    IndexOfIdAt(ab, pinId, k);
  }

  lemma {:induction false} IndexOfIdInSuffix(a: seq<Pin>, b: seq<Pin>, pinId: string)
    requires IndexOfId(a, pinId).None? && IndexOfId(b, pinId).Some?
    ensures IndexOfId(a + b, pinId) == Some(|a| + IndexOfId(b, pinId).value)
  {
    var k := IndexOfId(b, pinId).value;
    var ab := a + b;
    forall j | 0 <= j < |a| + k ensures ab[j].id != pinId {
      if j < |a| {
        assert Ids(a)[j] == a[j].id;
      } else {
        assert ab[j] == b[j - |a|];
      }
    }
    assert ab[|a| + k] == b[k];
    IndexOfIdAt(ab, pinId, |a| + k);
  }

  /** Appends a pin on side `d` whose index is the previous pin count. */
  function Append(n: Node, d: Direction, pinLabel: Option<string>, capacity: int, newId: string): (r: (Node, Pin))
    ensures Side(r.0, d) == Side(n, d) + [r.1]
    ensures r.1.index == |Side(n, d)| && r.1.id == newId && r.1.direction == d
    ensures r.1.nodeId == n.id && r.1.capacity == capacity && r.1.pinLabel == pinLabel
    ensures Contiguous(Side(n, d)) ==> Contiguous(Side(r.0, d))
    ensures Side(r.0, Opposite(d)) == Side(n, Opposite(d))
    ensures r.0.id == n.id && r.0.position == n.position && r.0.name == n.name
  {
    var pin := NewPin(newId, |Side(n, d)|, d, n.id).(pinLabel := pinLabel, capacity := capacity);
    (WithSide(n, d, Side(n, d) + [pin]), pin)
  }

  function AddInput(n: Node, pinLabel: Option<string>, capacity: int, newId: string): (r: (Node, Pin))
    ensures r.0.inputs == n.inputs + [r.1] && r.0.outputs == n.outputs
    ensures r.1.index == |n.inputs| && r.1.direction == Input && r.1.id == newId
    ensures Contiguous(n.inputs) ==> Contiguous(r.0.inputs)
  {
    Append(n, Input, pinLabel, capacity, newId)
  }

  function AddOutput(n: Node, pinLabel: Option<string>, capacity: int, newId: string): (r: (Node, Pin))
    ensures r.0.outputs == n.outputs + [r.1] && r.0.inputs == n.inputs
    ensures r.1.index == |n.outputs| && r.1.direction == Output && r.1.id == newId
    ensures Contiguous(n.outputs) ==> Contiguous(r.0.outputs)
  {
    Append(n, Output, pinLabel, capacity, newId)
  }

  /**
   * Inserts a new pin on side `d` at `atIndex` clamped into [0, count],
   * then reindexes that side.
   */
  function Insert(n: Node, d: Direction, atIndex: int, pinLabel: Option<string>, capacity: int, newId: string): (r: (Node, Pin))
    ensures var at := Clamp(atIndex, 0, |Side(n, d)|);
      && |Side(r.0, d)| == |Side(n, d)| + 1
      && Side(r.0, d)[at] == r.1
      && r.1.index == at && r.1.id == newId && r.1.direction == d && r.1.nodeId == n.id
      && Ids(Side(r.0, d)) == Ids(Side(n, d))[..at] + [newId] + Ids(Side(n, d))[at..]
    ensures Contiguous(Side(r.0, d))
    ensures Side(r.0, Opposite(d)) == Side(n, Opposite(d))
    ensures r.0.id == n.id && r.0.position == n.position && r.0.name == n.name && r.0.size == n.size
  {
    var side := Side(n, d);
    var at := Clamp(atIndex, 0, |side|);
    var pin := NewPin(newId, at, d, n.id).(pinLabel := pinLabel, capacity := capacity);
    var side' := Reindex(side[..at] + [pin] + side[at..]);
    assert Ids(side') == Ids(side)[..at] + [newId] + Ids(side)[at..] by {
      IdsAppend(side[..at] + [pin], side[at..]);
      IdsAppend(side[..at], [pin]);
      assert Ids(side[..at]) == Ids(side)[..at];
      assert Ids(side[at..]) == Ids(side)[at..];
    }
    (WithSide(n, d, side'), side'[at])
  }

  function InsertInput(n: Node, atIndex: int, pinLabel: Option<string>, capacity: int, newId: string): (r: (Node, Pin))
    ensures r.0.outputs == n.outputs && r.1.direction == Input
    ensures Contiguous(r.0.inputs) && |r.0.inputs| == |n.inputs| + 1
    ensures r.0.inputs[Clamp(atIndex, 0, |n.inputs|)] == r.1
  {
    Insert(n, Input, atIndex, pinLabel, capacity, newId)
  }

  function InsertOutput(n: Node, atIndex: int, pinLabel: Option<string>, capacity: int, newId: string): (r: (Node, Pin))
    ensures r.0.inputs == n.inputs && r.1.direction == Output
    ensures Contiguous(r.0.outputs) && |r.0.outputs| == |n.outputs| + 1
    ensures r.0.outputs[Clamp(atIndex, 0, |n.outputs|)] == r.1
  {
    Insert(n, Output, atIndex, pinLabel, capacity, newId)
  }

  /**
   * Removes `pin` from the side its own direction names (matched by pin
   * identity) and reindexes that side; `false` and no change if absent.
   */
  function RemovePin(n: Node, pin: Pin): (r: (Node, bool))
    ensures r.1 <==> pin.id in Ids(Side(n, pin.direction))
    ensures !r.1 ==> r.0 == n
    ensures r.1 ==> |Side(r.0, pin.direction)| == |Side(n, pin.direction)| - 1
    ensures r.1 ==> Contiguous(Side(r.0, pin.direction))
    ensures Side(r.0, Opposite(pin.direction)) == Side(n, Opposite(pin.direction))
    ensures r.0.id == n.id && r.0.position == n.position && r.0.name == n.name && r.0.size == n.size
  {
    var side := Side(n, pin.direction);
    match IndexOfId(side, pin.id)
    case None => (n, false)
    case Some(k) => (WithSide(n, pin.direction, Reindex(side[..k] + side[k + 1..])), true)
  }

  /** The first input with the id, else the first output with it. */
  function FindPin(n: Node, pinId: string): (r: Option<Pin>)
    ensures r.Some? <==> pinId in Ids(n.inputs) || pinId in Ids(n.outputs)
    ensures r.Some? ==> r.value.id == pinId && (r.value in n.inputs || r.value in n.outputs)
    ensures pinId in Ids(n.inputs) ==> r.Some? && r.value in n.inputs
  {
    match IndexOfId(n.inputs, pinId)
    case Some(k) => Some(n.inputs[k])
    case None =>
      match IndexOfId(n.outputs, pinId)
      case Some(k) => Some(n.outputs[k])
      case None => None
  }

  /** Inputs first, then outputs. */
  function AllPins(n: Node): (r: seq<Pin>)
    ensures |r| == |n.inputs| + |n.outputs|
    ensures r[..|n.inputs|] == n.inputs && r[|n.inputs|..] == n.outputs
  {
    n.inputs + n.outputs
  }

  /** The first pin of `AllPins` with the id. */
  function FindPinById(n: Node, pinId: string): Option<Pin> {
    match IndexOfId(AllPins(n), pinId)
    case Some(k) => Some(AllPins(n)[k])
    case None => None
  }

  /** Every pin sits on the side its direction names. */
  predicate SidesConsistent(n: Node) {
    && (forall i | 0 <= i < |n.inputs| :: n.inputs[i].direction == Input)
    && (forall i | 0 <= i < |n.outputs| :: n.outputs[i].direction == Output)
  }

  /** Both lookups agree: searching the concatenation is searching inputs, then outputs. */
  lemma FindPinAgrees(n: Node, pinId: string)
    ensures FindPin(n, pinId) == FindPinById(n, pinId)
  {
    IndexOfIdAppend(n.inputs, n.outputs, pinId);
    var all := AllPins(n);
    match IndexOfId(n.inputs, pinId)
    case Some(k) =>
      assert all[k] == n.inputs[k];
    case None =>
      match IndexOfId(n.outputs, pinId)
      case Some(k) =>
        assert all[|n.inputs| + k] == n.outputs[k];
      case None =>
  }

  /** No pin id occurs twice across the two sides. */
  predicate UniquePinIds(n: Node) {
    Distinct(Ids(AllPins(n)))
  }

  lemma ReindexAt(pins: seq<Pin>, i: nat)
    requires i < |pins|
    ensures Reindex(pins)[i] == pins[i].(index := i)
  {
  }

  lemma {:induction false} ReindexDropCommutes(x: seq<Pin>, k: nat)
    requires k < |x|
    ensures Reindex(Reindex(x)[..k] + Reindex(x)[k + 1..]) == Reindex(x[..k] + x[k + 1..])
  {
    var y := Reindex(x);
    var a := Reindex(y[..k] + y[k + 1..]);
    var b := Reindex(x[..k] + x[k + 1..]);
    forall i | 0 <= i < |a| ensures a[i] == b[i] {
      ReindexAt(y[..k] + y[k + 1..], i);
      ReindexAt(x[..k] + x[k + 1..], i);
      if i < k {
        ReindexAt(x, i);
      } else {
        ReindexAt(x, i + 1);
      }
    }
  }

  /** On one pin list: the inserted pin is found where it was put, and dropping it restores the list. */
  lemma {:induction false} InsertThenDrop(side: seq<Pin>, pin: Pin, at: nat)
    requires Contiguous(side) && at <= |side| && pin.id !in Ids(side)
    ensures var s' := Reindex(side[..at] + [pin] + side[at..]);
      && IndexOfId(s', pin.id) == Some(at)
      && Reindex(s'[..at] + s'[at + 1..]) == side
  {
    var x := side[..at] + [pin] + side[at..];
    var s' := Reindex(x);
    PrefixLacksId(side, pin, at);
    ReindexAt(x, at);
    IndexOfIdAt(s', pin.id, at);
    ReindexDropCommutes(x, at);
    DropInserted(side, pin, at);
  }

  lemma PrefixLacksId(side: seq<Pin>, pin: Pin, at: nat)
    requires at <= |side| && pin.id !in Ids(side)
    ensures var s' := Reindex(side[..at] + [pin] + side[at..]);
      forall j | 0 <= j < at :: s'[j].id != pin.id
  {
    var x := side[..at] + [pin] + side[at..];
    forall j | 0 <= j < at ensures Reindex(x)[j].id != pin.id {
      ReindexAt(x, j);
      assert Ids(side)[j] == side[j].id;
    }
  }

  lemma DropInserted<T>(side: seq<T>, pin: T, at: nat)
    requires at <= |side|
    ensures var x := side[..at] + [pin] + side[at..]; x[..at] + x[at + 1..] == side
  {
    var x := side[..at] + [pin] + side[at..];
    assert x[..at] == side[..at];
    assert x[at + 1..] == side[at..];
  }

  lemma WithSideSame(n: Node, d: Direction, pins: seq<Pin>)
    ensures WithSide(WithSide(n, d, pins), d, Side(n, d)) == n
  {
  }

  /**
   * Removing a freshly inserted pin restores its side exactly, provided the
   * side was contiguously indexed and the new id was not already on it.
   */
  lemma {:induction false} InsertThenRemove(n: Node, d: Direction, atIndex: int, pinLabel: Option<string>, capacity: int, newId: string)
    requires Contiguous(Side(n, d))
    requires newId !in Ids(Side(n, d))
    ensures var r := Insert(n, d, atIndex, pinLabel, capacity, newId);
      RemovePin(r.0, r.1) == (n, true)
  {
    var side := Side(n, d);
    var at := Clamp(atIndex, 0, |side|);
    var pin := NewPin(newId, at, d, n.id).(pinLabel := pinLabel, capacity := capacity);
    var s' := Reindex(side[..at] + [pin] + side[at..]);
    InsertThenDrop(side, pin, at);
    var r := Insert(n, d, atIndex, pinLabel, capacity, newId);
    assert r == (WithSide(n, d, s'), s'[at]);
    WithSideSame(n, d, s');
  }

  /** Inserting `x` anywhere into a distinct list that lacks it keeps it distinct. */
  lemma {:induction false} DistinctInsert(a: seq<string>, b: seq<string>, x: string)
    requires Distinct(a + b) && x !in a + b
    ensures Distinct(a + [x] + b)
  {
    var ab := a + b;
    var c := a + [x] + b;
    forall i, j | 0 <= i < j < |c| ensures c[i] != c[j] {
      var i' := if i < |a| then i else i - 1;
      var j' := if j < |a| then j else j - 1;
      if i != |a| && j != |a| {
        assert c[i] == ab[i'] && c[j] == ab[j'];
      } else if i == |a| {
        assert c[j] == ab[j'];
      } else {
        assert c[i] == ab[i'];
      }
    }
  }

  /** `DistinctInsert` with the insertion point inside a first part. */
  lemma DistinctInsertLeft(s: seq<string>, q: seq<string>, at: nat, x: string)
    requires at <= |s| && Distinct(s + q) && x !in s + q
    ensures Distinct((s[..at] + [x] + s[at..]) + q)
  {
    assert s + q == s[..at] + (s[at..] + q) by {
      assert s == s[..at] + s[at..];
    }
    assert (s[..at] + [x] + s[at..]) + q == s[..at] + [x] + (s[at..] + q);
    DistinctInsert(s[..at], s[at..] + q, x);
  }

  /** `DistinctInsert` with the insertion point inside a second part. */
  lemma DistinctInsertRight(p: seq<string>, s: seq<string>, at: nat, x: string)
    requires at <= |s| && Distinct(p + s) && x !in p + s
    ensures Distinct(p + (s[..at] + [x] + s[at..]))
  {
    assert p + s == (p + s[..at]) + s[at..] by {
      assert s == s[..at] + s[at..];
    }
    assert p + (s[..at] + [x] + s[at..]) == (p + s[..at]) + [x] + s[at..];
    DistinctInsert(p + s[..at], s[at..], x);
  }

  /** Inserting a pin with an id new to the node keeps pin ids unique. */
  lemma InsertKeepsIdsUnique(n: Node, d: Direction, atIndex: int, pinLabel: Option<string>, capacity: int, newId: string)
    requires UniquePinIds(n)
    requires newId !in Ids(AllPins(n))
    ensures UniquePinIds(Insert(n, d, atIndex, pinLabel, capacity, newId).0)
  {
    var r := Insert(n, d, atIndex, pinLabel, capacity, newId).0;
    InsertedIdKeepsUnique(n, r, d, Clamp(atIndex, 0, |Side(n, d)|), newId);
  }

  /** The id-level argument of `InsertKeepsIdsUnique`, for any node whose side `d` gained `newId` at `at`. */
  lemma InsertedIdKeepsUnique(n: Node, r: Node, d: Direction, at: nat, newId: string)
    requires UniquePinIds(n) && newId !in Ids(AllPins(n))
    requires at <= |Side(n, d)|
    requires Ids(Side(r, d)) == Ids(Side(n, d))[..at] + [newId] + Ids(Side(n, d))[at..]
    requires Side(r, Opposite(d)) == Side(n, Opposite(d))
    ensures UniquePinIds(r)
  {
    IdsAppend(n.inputs, n.outputs);
    IdsAppend(r.inputs, r.outputs);
    if d == Input {
      DistinctInsertLeft(Ids(n.inputs), Ids(n.outputs), at, newId);
    } else {
      DistinctInsertRight(Ids(n.inputs), Ids(n.outputs), at, newId);
    }
  }
}
