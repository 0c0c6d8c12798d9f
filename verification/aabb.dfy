/** `AABB` of src/state/scenes/aabb.rs: an axis-aligned box stored as its
    (big, small) corners. */
module Aabb {
  import opened Octant

  /** `AABB(big, small)`: by the type's own comment, the first corner is
      the big one and the second the small one. */
  datatype Box = Box(big: Point, small: Point)

  /** `AABB::new`: per axis, the larger argument goes to the big corner and
      the smaller one to the small corner. */
  function New(xa: int, xb: int, ya: int, yb: int, za: int, zb: int): (b: Box)
    ensures b.big.x >= b.small.x && b.big.y >= b.small.y && b.big.z >= b.small.z
    ensures (b.big.x, b.small.x) == (xa, xb) || (b.big.x, b.small.x) == (xb, xa)
    ensures (b.big.y, b.small.y) == (ya, yb) || (b.big.y, b.small.y) == (yb, ya)
    ensures (b.big.z, b.small.z) == (za, zb) || (b.big.z, b.small.z) == (zb, za)
  {
    Box(Point(Max(xa, xb), Max(ya, yb), Max(za, zb)),
        Point(Min(xa, xb), Min(ya, yb), Min(za, zb)))
  }

  /** `i32::max`: the larger argument. */
  function Max(a: int, b: int): (r: int)
    ensures r >= a && r >= b && (r == a || r == b)
  {
    if a >= b then a else b
  }

  /** `i32::min`: the smaller argument. */
  function Min(a: int, b: int): (r: int)
    ensures r <= a && r <= b && (r == a || r == b)
  {
    if a <= b then a else b
  }

  /** `AABB::default()`: both corners at the origin. */
  const Default: Box := Box(Origin, Origin)

  /** `AABB::size`: the absolute value of the product of the corner
      differences.  It is zero exactly when the box is flat on some axis. */
  function Size(b: Box): (r: nat)
    ensures r == 0 <==> b.big.x == b.small.x || b.big.y == b.small.y || b.big.z == b.small.z
  {
    var dx, dy, dz := b.big.x - b.small.x, b.big.y - b.small.y, b.big.z - b.small.z;
    ProductZero(dx, dy, dz);
    Abs(dx * dy * dz)
  }

  /** A product of three integers vanishes exactly when a factor does. */
  lemma ProductZero(a: int, b: int, c: int)
    ensures a * b * c == 0 <==> a == 0 || b == 0 || c == 0
  {
    if a != 0 && b != 0 && c != 0 {
      assert a * b != 0;
    }
  }

  /** The absolute value of a product is the product of absolute values. */
  lemma AbsProduct(a: int, b: int)
    ensures Abs(a * b) == Abs(a) * Abs(b)
  {
    if a < 0 && b < 0 {
      assert a * b == (-a) * (-b);
    } else if a < 0 {
      assert -(a * b) == (-a) * b;
    } else if b < 0 {
      assert -(a * b) == a * (-b);
    }
  }

  /** Swapping the two arguments of any axis gives the same box. */
  lemma NewIgnoresArgumentOrder(xa: int, xb: int, ya: int, yb: int, za: int, zb: int)
    ensures New(xa, xb, ya, yb, za, zb) == New(xb, xa, ya, yb, za, zb)
    ensures New(xa, xb, ya, yb, za, zb) == New(xa, xb, yb, ya, za, zb)
    ensures New(xa, xb, ya, yb, za, zb) == New(xa, xb, ya, yb, zb, za)
  {
  }

  /** The size of a box built by `new` is the product of the extents
      |ax - bx| |ay - by| |az - bz| (not the number of lattice points it
      covers). */
  lemma SizeOfNew(xa: int, xb: int, ya: int, yb: int, za: int, zb: int)
    ensures Size(New(xa, xb, ya, yb, za, zb)) == Abs(xa - xb) * Abs(ya - yb) * Abs(za - zb)
  {
    var b := New(xa, xb, ya, yb, za, zb);
    var dx, dy, dz := b.big.x - b.small.x, b.big.y - b.small.y, b.big.z - b.small.z;
    assert Abs(dx) == Abs(xa - xb) && Abs(dy) == Abs(ya - yb) && Abs(dz) == Abs(za - zb);
    AbsProduct(dx * dy, dz);
    AbsProduct(dx, dy);
  }

  /** `size` does not depend on which corner is stored first. */
  lemma SizeIgnoresCornerOrder(b: Box)
    ensures Size(Box(b.small, b.big)) == Size(b)
  {
    var dx, dy, dz := b.big.x - b.small.x, b.big.y - b.small.y, b.big.z - b.small.z;
    AbsProduct(dx * dy, dz);
    AbsProduct(dx, dy);
    AbsProduct(-dx * -dy, -dz);
    AbsProduct(-dx, -dy);
  }

  /** The default box is a single point and has size 0. */
  lemma DefaultSize()
    ensures Size(Default) == 0 && Default == New(0, 0, 0, 0, 0, 0)
  {
  }
}
