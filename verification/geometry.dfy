/**
 * Value geometry: points, vectors and sizes in two and three dimensions.
 * Components are exact reals; IEEE single-precision rounding is not modelled.
 */
module Geometry {

  datatype Point2 = Point2(x: real, y: real)
  datatype Vector2 = Vector2(x: real, y: real)
  datatype Point3 = Point3(x: real, y: real, z: real)
  datatype Vector3 = Vector3(x: real, y: real, z: real)
  datatype Size3 = Size3(width: real, height: real, depth: real)

  const Origin3 := Point3(0.0, 0.0, 0.0)

  /** The constructors whose last component defaults to 0 when omitted. */
  function MakePoint3(x: real, y: real, z: real := 0.0): (p: Point3)
    ensures p.x == x && p.y == y && p.z == z
  {
    Point3(x, y, z)
  }

  function MakeVector3(x: real, y: real, z: real := 0.0): (v: Vector3)
    ensures v.x == x && v.y == y && v.z == z
  {
    Vector3(x, y, z)
  }

  function MakeSize3(width: real, height: real, depth: real := 0.0): (s: Size3)
    ensures s.width == width && s.height == height && s.depth == depth
  {
    Size3(width, height, depth)
  }

  /** `Point2 + Vector2`. */
  function Translate2(p: Point2, v: Vector2): Point2 {
    Point2(p.x + v.x, p.y + v.y)
  }

  /** `Point2 - Point2`. */
  function Between2(a: Point2, b: Point2): Vector2 {
    Vector2(a.x - b.x, a.y - b.y)
  }

  function AddVector2(a: Vector2, b: Vector2): Vector2 {
    Vector2(a.x + b.x, a.y + b.y)
  }

  function SubVector2(a: Vector2, b: Vector2): Vector2 {
    Vector2(a.x - b.x, a.y - b.y)
  }

  function ScaleVector2(a: Vector2, k: real): Vector2 {
    Vector2(a.x * k, a.y * k)
  }

  function DivideVector2(a: Vector2, k: real): Vector2
    requires k != 0.0
  {
    Vector2(a.x / k, a.y / k)
  }

  /** `Point3 + Vector3`. */
  function Translate3(p: Point3, v: Vector3): Point3 {
    Point3(p.x + v.x, p.y + v.y, p.z + v.z)
  }

  /** `Point3 - Point3`. */
  function Between3(a: Point3, b: Point3): Vector3 {
    Vector3(a.x - b.x, a.y - b.y, a.z - b.z)
  }

  function AddVector3(a: Vector3, b: Vector3): Vector3 {
    Vector3(a.x + b.x, a.y + b.y, a.z + b.z)
  }

  /** `Vector3 - Vector3` exactly as the operator is written: Z is added. */
  function SubVector3AsWritten(a: Vector3, b: Vector3): Vector3 {
    Vector3(a.x - b.x, a.y - b.y, a.z + b.z)
  }

  /** `Vector3 - Vector3` as evidently intended: every component subtracted. */
  function SubVector3(a: Vector3, b: Vector3): Vector3 {
    Vector3(a.x - b.x, a.y - b.y, a.z - b.z)
  }

  function ScaleVector3(a: Vector3, k: real): Vector3 {
    Vector3(a.x * k, a.y * k, a.z * k)
  }

  function DivideVector3(a: Vector3, k: real): Vector3
    requires k != 0.0
  {
    Vector3(a.x / k, a.y / k, a.z / k)
  }

  /** Translating by the difference of two points lands on the first point. */
  lemma TranslateBetween2(a: Point2, b: Point2)
    ensures Translate2(b, Between2(a, b)) == a
    ensures Between2(Translate2(b, Between2(a, b)), b) == Between2(a, b)
  {
  }

  /** `(p + v) - p == v` and `p + (q - p) == q` in three dimensions. */
  lemma TranslateBetween3(p: Point3, q: Point3, v: Vector3)
    ensures Between3(Translate3(p, v), p) == v
    ensures Translate3(p, Between3(q, p)) == q
  {
  }

  /** The corrected subtraction undoes addition: `(a - b) + b == a`. */
  lemma SubVector3UndoesAdd(a: Vector3, b: Vector3)
    ensures AddVector3(SubVector3(a, b), b) == a
    ensures SubVector3(AddVector3(a, b), b) == a
  {
  }

  /** The operator as written does not undo addition whenever `b.z != 0`. */
  lemma SubVector3AsWrittenBreaksUndo(a: Vector3, b: Vector3)
    requires b.z != 0.0
    ensures AddVector3(SubVector3AsWritten(a, b), b) != a
    ensures SubVector3AsWritten(a, a) != Vector3(0.0, 0.0, 0.0) <== a.z != 0.0
  {
  }

  /** Concrete witness: <0,0,1> - <0,0,1> gives <0,0,2> instead of the zero vector. */
  lemma SubVector3AsWrittenWitness()
    ensures SubVector3AsWritten(Vector3(0.0, 0.0, 1.0), Vector3(0.0, 0.0, 1.0)) == Vector3(0.0, 0.0, 2.0)
    ensures SubVector3(Vector3(0.0, 0.0, 1.0), Vector3(0.0, 0.0, 1.0)) == Vector3(0.0, 0.0, 0.0)
  {
  }

  /** Dividing by a non-zero factor undoes scaling by it, componentwise. */
  lemma DivideUndoesScale(a: Vector3, b: Vector2, k: real)
    requires k != 0.0
    ensures DivideVector3(ScaleVector3(a, k), k) == a
    ensures DivideVector2(ScaleVector2(b, k), k) == b
  {
  }
}
