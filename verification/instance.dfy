/** The stored value of the octree: src/state/scenes/instance.rs.  The
    scenes crate's own `Instance` is not part of this model; it is taken to
    be this one, with a derived `Default`. */
module Instances {
  import Octant

  /** A lattice position with an opaque style tag.  Equality is the
      datatype's structural equality on (position, styleId), as the derived
      `PartialEq` gives. `Instance::new` is the constructor and
      `Instance::pos` the `position` field. */
  datatype Instance = Instance(position: Octant.Point, styleId: string)
  {
    /** `Instance::toward`: the octant of this instance's position seen from
        `other`, by its own copy of the classifier's rule. */
    function Toward(other: Octant.Point): (t: nat)
      ensures t < 8
      ensures t % 2 == 1 <==> position.x >= other.x
      ensures t % 4 / 2 == 1 <==> position.y >= other.y
      ensures t / 4 == 1 <==> position.z >= other.z
      ensures t == Octant.Toward(position, other)
    {
      (if position.x >= other.x then 1 else 0)
      + (if position.y >= other.y then 2 else 0)
      + (if position.z >= other.z then 4 else 0)
    }
  }

  /** `Instance::default()`: the origin with an empty style tag. */
  const DefaultInstance: Instance := Instance(Octant.Origin, "")

  /** An instance seen from its own position is in octant 7. */
  lemma TowardOwnPosition(v: Instance)
    ensures v.Toward(v.position) == 7
  {
  }
}
