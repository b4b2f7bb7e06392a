/** Axis-aligned bounding boxes, reduced to what the BVH needs: the corner
    coordinates per axis, the union of two boxes (`surrounding_box`) and
    containment.  Coordinates are `real`; floating-point rounding is not modelled. */
module Geometry {

  datatype Option<T> = None | Some(value: T)

  /** The three axes, numbered as in the source: 0 = x, 1 = y, 2 = z. */
  type Axis = a: int | 0 <= a < 3

  datatype Vec3 = Vec3(x: real, y: real, z: real)

  /** The coordinate of `v` on `axis` (the source's `v[axis]`). */
  function Coord(v: Vec3, axis: Axis): real
  {
    if axis == 0 then v.x else if axis == 1 then v.y else v.z
  }

  /** `AABB`: minimum corner `mn` and maximum corner `mx`. */
  datatype AABB = AABB(mn: Vec3, mx: Vec3)

  /** The box this model reads where the source reads whatever a failed
      `HittableList::bounding_box` call leaves in its output.  That function and the
      `AABB` default constructor are not part of this model, so all-zero corners are a
      modelling choice. */
  const ZeroBox: AABB := AABB(Vec3(0.0, 0.0, 0.0), Vec3(0.0, 0.0, 0.0))

  function Min(a: real, b: real): real { if a <= b then a else b }
  function Max(a: real, b: real): real { if a <= b then b else a }

  /** `inner` lies inside `outer` on every axis. */
  predicate Contains(outer: AABB, inner: AABB)
  {
    outer.mn.x <= inner.mn.x && inner.mx.x <= outer.mx.x
    && outer.mn.y <= inner.mn.y && inner.mx.y <= outer.mx.y
    && outer.mn.z <= inner.mn.z && inner.mx.z <= outer.mx.z
  }

  /** `surrounding_box`: the component-wise min of the minimum corners and max of the
      maximum corners.  It contains both arguments and lies inside every box that
      contains both, so it is the smallest box around the two. */
  function Surround(a: AABB, b: AABB): (r: AABB)
    ensures Contains(r, a) && Contains(r, b)
    ensures forall c: AABB :: Contains(c, a) && Contains(c, b) ==> Contains(c, r)
  {
    AABB(Vec3(Min(a.mn.x, b.mn.x), Min(a.mn.y, b.mn.y), Min(a.mn.z, b.mn.z)),
         Vec3(Max(a.mx.x, b.mx.x), Max(a.mx.y, b.mx.y), Max(a.mx.z, b.mx.z)))
  }

  lemma ContainsTransitive(a: AABB, b: AABB, c: AABB)
    requires Contains(a, b) && Contains(b, c)
    ensures Contains(a, c)
  {
  }
}
