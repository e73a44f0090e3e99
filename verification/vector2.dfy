/**
 The 2-D integer vector used for every coordinate (Vector2.ts). The source's
 mutable `TVector2` is a value here: `SetX`/`SetY` return the changed vector,
 so a clone can never alias its original.
 */
module Vector2 {

  datatype Vec2 = Vec2(x: int, y: int)

  /** `clone`: a vector equal to the original. */
  function Clone(v: Vec2): (r: Vec2)
    ensures r == v
    ensures Equals(r, v)
  {
    Vec2(v.x, v.y)
  }

  /** `equals`: componentwise comparison, which is exactly value equality. */
  function Equals(a: Vec2, b: Vec2): (r: bool)
    ensures r <==> a == b
  {
    a.x == b.x && a.y == b.y
  }

  /** `setX`: only the x component changes. */
  function SetX(v: Vec2, x: int): (r: Vec2)
    ensures r.x == x && r.y == v.y
    ensures Equals(r, v) <==> x == v.x
  {
    Vec2(x, v.y)
  }

  /** `setY`: only the y component changes. */
  function SetY(v: Vec2, y: int): (r: Vec2)
    ensures r.y == y && r.x == v.x
    ensures Equals(r, v) <==> y == v.y
  {
    Vec2(v.x, y)
  }

  /** Setting the two components independently: the order does not matter. */
  lemma SettersCommute(v: Vec2, x: int, y: int)
    ensures SetY(SetX(v, x), y) == SetX(SetY(v, y), x) == Vec2(x, y)
  {
  }

  function Abs(n: int): nat {
    if n < 0 then -n else n
  }

  /** The 8-neighbourhood distance: max(|dx|, |dy|). */
  function Chebyshev(a: Vec2, b: Vec2): nat {
    var dx := Abs(a.x - b.x);
    var dy := Abs(a.y - b.y);
    if dx < dy then dy else dx
  }

  /** The two cells touch by an edge or a corner. */
  predicate Adjacent(a: Vec2, b: Vec2) {
    Chebyshev(a, b) == 1
  }

  /** Row-major order: by y, then by x. */
  predicate RowMajorBefore(a: Vec2, b: Vec2) {
    a.y < b.y || (a.y == b.y && a.x < b.x)
  }

  /** Column-major order: by x, then by y. */
  predicate ColumnMajorBefore(a: Vec2, b: Vec2) {
    a.x < b.x || (a.x == b.x && a.y < b.y)
  }
}
