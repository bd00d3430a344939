/** Integer stand-ins for the Unity vector and rectangle types the GUI root works with. */
module Geometry {

  /** A `Vector3`: transform positions, drag offsets and line endpoints. */
  datatype Vec3 = Vec3(x: int, y: int, z: int)

  /** A `Vector2`: the pointer position and a widget's scroll offset. */
  datatype Vec2 = Vec2(x: int, y: int)

  const Zero3: Vec3 := Vec3(0, 0, 0)
  const Zero2: Vec2 := Vec2(0, 0)

  function Add(a: Vec3, b: Vec3): Vec3 {
    Vec3(a.x + b.x, a.y + b.y, a.z + b.z)
  }

  function Sub(a: Vec3, b: Vec3): Vec3 {
    Vec3(a.x - b.x, a.y - b.y, a.z - b.z)
  }

  /** A `Rect` given by its corner and its size: `xMax` is `x + width`, `yMax` is `y + height`. */
  datatype Rect = Rect(x: int, y: int, width: int, height: int) {
    function XMin(): int { x }
    function XMax(): int { x + width }
    function YMin(): int { y }
    function YMax(): int { y + height }
  }

  /** `Rect.Contains` applied to the x and y of a point: half-open on both axes. */
  predicate Contains(r: Rect, p: Vec3) {
    r.XMin() <= p.x < r.XMax() && r.YMin() <= p.y < r.YMax()
  }

  /** `Mathf.Clamp`: the value moved into `[lo, hi]`. */
  function Clamp(v: int, lo: int, hi: int): (r: int)
    ensures lo <= hi ==> lo <= r <= hi
    ensures lo <= v <= hi ==> r == v
    ensures r == v || r == lo || r == hi
    ensures lo <= hi && r != v ==> (v < lo && r == lo) || (hi < v && r == hi)
  {
    if v < lo then lo else if v > hi then hi else v
  }
}
