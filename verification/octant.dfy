/** The octant classifier `toward` of scenes/src/scenes.rs and the lattice
    points it works on. */
module Octant {

  /** A lattice point (`Point3<i32>`); coordinates are unbounded here. */
  datatype Point = Point(x: int, y: int, z: int)

  /** `CENTRAL`: the centre the octree root is always split around. */
  const Origin: Point := Point(0, 0, 0)

  /** Octant index of `s` seen from `o`: 1 for the x side, 2 for the y side,
      4 for the z side, each counted when `s` is on the greater-or-equal side. */
  function Toward(s: Point, o: Point): (t: nat)
    ensures t < 8
    ensures t % 2 == 1 <==> s.x >= o.x
    ensures t % 4 / 2 == 1 <==> s.y >= o.y
    ensures t / 4 == 1 <==> s.z >= o.z
  {
    (if s.x >= o.x then 1 else 0) + (if s.y >= o.y then 2 else 0) + (if s.z >= o.z then 4 else 0)
  }

  /** The absolute value of a coordinate difference (`i32::abs`). */
  function Abs(x: int): (r: nat)
    ensures r == x || r == -x
  {
    if x < 0 then -x else x
  }

  /** The three bit tests the octree uses to decode an octant index. */
  predicate XHigh(t: nat) { t % 2 != 0 }
  predicate YHigh(t: nat) { t % 4 / 2 != 0 }
  predicate ZHigh(t: nat) { t / 4 != 0 }

  /** An octant index is exactly its three bits: `Toward(s, o) == t` holds
      precisely when each decoded bit of `t` agrees with the side of `s`. */
  lemma TowardDecodes(s: Point, o: Point, t: nat)
    requires t < 8
    ensures Toward(s, o) == t <==>
      (XHigh(t) <==> s.x >= o.x) && (YHigh(t) <==> s.y >= o.y) && (ZHigh(t) <==> s.z >= o.z)
  {
  }

  /** Ties go to the greater-or-equal side on every axis. */
  lemma TowardSelf(p: Point)
    ensures Toward(p, p) == 7
  {
  }

  /** Seen from each other, two points that differ on every axis lie in
      complementary octants. */
  lemma TowardOpposite(s: Point, o: Point)
    requires s.x != o.x && s.y != o.y && s.z != o.z
    ensures Toward(s, o) + Toward(o, s) == 7
  {
  }
}
