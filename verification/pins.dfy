/**
 * Node pins (attachment points with a stable id and a fixed direction) and
 * the slot record whose id is computed from its direction and index.
 */
module Pins {
  import opened Base
  import opened Text
  import opened Geometry

  datatype Direction = Input | Output

  /**
   * A pin. `id` is minted once at creation (a Guid in the original) and is
   * the pin's identity; `index` is its position on its side and is rewritten
   * by reindexing; `nodeId` is the owner's id.
   */
  datatype Pin = Pin(
    id: string,
    direction: Direction,
    index: int,
    pinLabel: Option<string>,
    capacity: int,
    size: Size3,
    nodeId: string)

  const DefaultPinSize := Size3(0.1, 0.1, 0.1)

  /** The pin constructor; `newId` is the newly minted identifier. */
  function NewPin(newId: string, index: int, direction: Direction, nodeId: string): (p: Pin)
    ensures p.id == newId && p.direction == direction && p.nodeId == nodeId
    ensures p.index == index && p.capacity == 1 && p.pinLabel == None
    ensures p.size == DefaultPinSize
  {
    Pin(newId, direction, index, None, 1, DefaultPinSize, nodeId)
  }

  function SideName(d: Direction): string {
    if d == Input then "In" else "Out"
  }

  /** "In-" or "Out-" followed by the index in the "000" format. */
  function SideLabel(d: Direction, index: int): string {
    SideName(d) + "-" + FormatFixed(index, 3)
  }

  /** The UI id of a pin, recomputed from its current index. */
  function DisplayId(p: Pin): string {
    SideLabel(p.direction, p.index)
  }

  /** Inverse of `SideLabel`: recovers the direction and the index. */
  function ParseSideLabel(s: string): Option<(Direction, int)> {
    if 3 <= |s| && s[..3] == "In-" then
      match ParseFixed(s[3..])
      case Some(i) => Some((Input, i))
      case None => None
    else if 4 <= |s| && s[..4] == "Out-" then
      match ParseFixed(s[4..])
      case Some(i) => Some((Output, i))
      case None => None
    else None
  }

  /** A side label determines its direction and index. */
  lemma ParseSideLabelRoundTrip(d: Direction, index: int)
    ensures ParseSideLabel(SideLabel(d, index)) == Some((d, index))
  {
    var s := SideLabel(d, index);
    ParseFormatFixed(index, 3);
    if d == Input {
      assert s[..3] == "In-" && s[3..] == FormatFixed(index, 3);
    } else {
      assert s[..3] != "In-" by { assert s[0] == 'O'; }
      assert s[..4] == "Out-" && s[4..] == FormatFixed(index, 3);
    }
  }

  /** So two pins share a display id only when they share direction and index. */
  lemma SideLabelInjective(d1: Direction, i1: int, d2: Direction, i2: int)
    ensures SideLabel(d1, i1) == SideLabel(d2, i2) <==> d1 == d2 && i1 == i2
  {
    ParseSideLabelRoundTrip(d1, i1);
    ParseSideLabelRoundTrip(d2, i2);
  }

  /** Shape of a display id: the side prefix, then at least three characters. */
  lemma DisplayIdShape(p: Pin)
    ensures p.direction == Input ==> DisplayId(p)[..3] == "In-" && 6 <= |DisplayId(p)|
    ensures p.direction == Output ==> DisplayId(p)[..4] == "Out-" && 7 <= |DisplayId(p)|
    ensures 0 <= p.index < 1000 ==> |DisplayId(p)| == |SideName(p.direction)| + 4
  {
    if 0 <= p.index < 1000 {
      assert |Digits(p.index)| <= 3 by {
        if p.index >= 10 {
          assert |Digits(p.index / 10)| <= 2 by {
            if p.index / 10 >= 10 { assert |Digits(p.index / 100)| == 1; }
          }
        }
      }
    }
  }

  /** Moving a pin to another index keeps its id and direction; its display id follows the index. */
  lemma ReindexKeepsIdentity(p: Pin, i: int)
    ensures p.(index := i).id == p.id && p.(index := i).direction == p.direction
    ensures p.(index := i).nodeId == p.nodeId
    ensures DisplayId(p.(index := i)) == DisplayId(p) <==> i == p.index
  {
    SideLabelInjective(p.direction, i, p.direction, p.index);
  }

  /**
   * The slot record of the model layer: a direction and owner fixed at
   * construction, a mutable index, and a position and size for drawing.
   */
  datatype Slot = Slot(direction: Direction, index: int, position: Point3, size: Size3, owner: string)

  const DefaultSlotSize := Size3(0.1, 0.1, 0.1)

  function NewSlot(index: int, direction: Direction, owner: string): (s: Slot)
    ensures s.index == index && s.direction == direction && s.owner == owner
    ensures s.position == Origin3 && s.size == DefaultSlotSize
  {
    Slot(direction, index, Origin3, DefaultSlotSize, owner)
  }

  /** The computed slot id, read from the current index. */
  function SlotId(s: Slot): string {
    SideLabel(s.direction, s.index)
  }

  /** A slot id names the slot's direction and current index, and nothing else. */
  lemma SlotIdDetermined(s: Slot, i: int)
    ensures ParseSideLabel(SlotId(s)) == Some((s.direction, s.index))
    ensures SlotId(s.(index := i)) == SlotId(s) <==> i == s.index
    ensures SlotId(s.(index := i)) == SideLabel(s.direction, i)
    ensures s.(index := i).direction == s.direction && s.(index := i).owner == s.owner
  {
    ParseSideLabelRoundTrip(s.direction, s.index);
    SideLabelInjective(s.direction, i, s.direction, s.index);
  }
}
