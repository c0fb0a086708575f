/** Axis-aligned box geometry shared by both revisions of the collision
    code: `aabbMinMax`, `aabbMinkowskiDifference` and `aabbCollide` are the
    same text in src/thing.c and src/physics.c, so they are modelled once. */
module Aabb {
  import opened Common

  /** The two fields of a `Body` the geometry routines read: centre and
      half-size. `Body expanded = *other` in the sweep is such a value. */
  datatype Box = Box(pos: Vec3, halfsize: Vec3)

  /** The `min` and `max` corners written by `aabbMinMax`. */
  datatype Bounds = Bounds(min: Vec3, max: Vec3)

  /** Point `p` lies in the closed box `b`. */
  predicate InBox(b: Box, p: Vec3) {
    && b.pos.x - b.halfsize.x <= p.x <= b.pos.x + b.halfsize.x
    && b.pos.y - b.halfsize.y <= p.y <= b.pos.y + b.halfsize.y
    && b.pos.z - b.halfsize.z <= p.z <= b.pos.z + b.halfsize.z
  }

  /** `aabbMinMax`: the corners are placed symmetrically about the centre,
      at a distance of twice the half-size from each other. */
  function AabbMinMax(b: Box): (r: Bounds)
    ensures r.min.Add(r.max) == b.pos.Scale(2.0)
    ensures r.max.Sub(r.min) == b.halfsize.Scale(2.0)
  {
    Bounds(b.pos.Sub(b.halfsize), b.pos.Add(b.halfsize))
  }

  /** The corners are ordered on every axis exactly when the half-size is
      non-negative, and the box is then the set of points between them. */
  lemma MinMaxOrdered(b: Box, p: Vec3)
    ensures var r := AabbMinMax(b);
      (r.min.x <= r.max.x && r.min.y <= r.max.y && r.min.z <= r.max.z) <==> NonNegative(b.halfsize)
    ensures var r := AabbMinMax(b);
      InBox(b, p) <==> (r.min.x <= p.x <= r.max.x && r.min.y <= p.y <= r.max.y && r.min.z <= p.z <= r.max.z)
  {
  }

  /** `aabbMinkowskiDifference(a, b, dest)`: a box holding every
      difference of a point of `a` and a point of `b`. */
  function MinkowskiDifference(a: Box, b: Box): (m: Box)
    ensures forall p, q | InBox(a, p) && InBox(b, q) :: InBox(m, p.Sub(q))
    ensures NonNegative(a.halfsize) && NonNegative(b.halfsize) ==> NonNegative(m.halfsize)
    ensures m.pos.Add(b.pos) == a.pos
  {
    Box(a.pos.Sub(b.pos), a.halfsize.Add(b.halfsize))
  }

  /** Overlap on one axis of the intervals `[c1-h1, c1+h1]` and `[c2-h2, c2+h2]`. */
  predicate AxisOverlap(c1: real, h1: real, c2: real, h2: real) {
    c1 - h1 <= c2 + h2 && c2 - h2 <= c1 + h1
  }

  /** Two closed boxes share a point. */
  ghost predicate Intersect(a: Box, b: Box) {
    exists p :: InBox(a, p) && InBox(b, p)
  }

  /** The boxes share a point exactly when every axis overlaps. */
  lemma IntersectByAxes(a: Box, b: Box)
    requires NonNegative(a.halfsize) && NonNegative(b.halfsize)
    ensures Intersect(a, b) <==>
      && AxisOverlap(a.pos.x, a.halfsize.x, b.pos.x, b.halfsize.x)
      && AxisOverlap(a.pos.y, a.halfsize.y, b.pos.y, b.halfsize.y)
      && AxisOverlap(a.pos.z, a.halfsize.z, b.pos.z, b.halfsize.z)
  {
    if && AxisOverlap(a.pos.x, a.halfsize.x, b.pos.x, b.halfsize.x)
       && AxisOverlap(a.pos.y, a.halfsize.y, b.pos.y, b.halfsize.y)
       && AxisOverlap(a.pos.z, a.halfsize.z, b.pos.z, b.halfsize.z)
    {
      var p := Vec3(Max(a.pos.x - a.halfsize.x, b.pos.x - b.halfsize.x),
                    Max(a.pos.y - a.halfsize.y, b.pos.y - b.halfsize.y),
                    Max(a.pos.z - a.halfsize.z, b.pos.z - b.halfsize.z));
      assert InBox(a, p) && InBox(b, p);
    }
  }

  /** The reason the Minkowski difference is computed: with non-negative
      half-sizes, the origin lies in `a - b` exactly when the boxes share a
      point. */
  lemma MinkowskiOriginTest(a: Box, b: Box)
    requires NonNegative(a.halfsize) && NonNegative(b.halfsize)
    ensures InBox(MinkowskiDifference(a, b), Zero) <==> Intersect(a, b)
  {
    IntersectByAxes(a, b);
  }

  /** `aabbCollide` as written: the x test reads `max[0] <= 0` where the
      other two axes read `max[i] >= 0`. (The C writes the difference
      through an uninitialised pointer; here it is a local value.) */
  function AabbCollide(a: Box, b: Box): (r: bool)
    ensures r <==>
      && a.pos.x + a.halfsize.x + b.halfsize.x <= b.pos.x
      && a.pos.x - a.halfsize.x - b.halfsize.x <= b.pos.x
      && AxisOverlap(a.pos.y, a.halfsize.y, b.pos.y, b.halfsize.y)
      && AxisOverlap(a.pos.z, a.halfsize.z, b.pos.z, b.halfsize.z)
  {
    var r := AabbMinMax(MinkowskiDifference(a, b));
    r.min.x <= 0.0 && r.max.x <= 0.0 && r.min.y <= 0.0 && r.max.y >= 0.0 &&
    r.min.z <= 0.0 && r.max.z >= 0.0
  }

  /** What the as-written test accepts: overlap on y and z, and on x only
      boxes `a` whose centre lies at least the summed x half-sizes to the
      left of `b`'s centre, so that at most their faces touch on x. */
  lemma AabbCollideAsWritten(a: Box, b: Box)
    requires NonNegative(a.halfsize) && NonNegative(b.halfsize)
    ensures AabbCollide(a, b) <==>
      && a.pos.x + a.halfsize.x + b.halfsize.x <= b.pos.x
      && AxisOverlap(a.pos.y, a.halfsize.y, b.pos.y, b.halfsize.y)
      && AxisOverlap(a.pos.z, a.halfsize.z, b.pos.z, b.halfsize.z)
  {
  }

  /** Counterexample to the as-written x test: two identical unit boxes at
      the origin share every point, yet `aabbCollide` reports no collision. */
  lemma AabbCollideMissesCoincidentBoxes()
    ensures var u := Box(Zero, Vec3(1.0, 1.0, 1.0));
      Intersect(u, u) && !AabbCollide(u, u)
  {
    var u := Box(Zero, Vec3(1.0, 1.0, 1.0));
    assert InBox(u, Zero);
  }

  /** The evidently intended collision test, `max[0] >= 0` on x as on the
      other axes: it holds exactly when the boxes share a point. */
  function AabbOverlap(a: Box, b: Box): (r: bool)
    requires NonNegative(a.halfsize) && NonNegative(b.halfsize)
    ensures r <==> Intersect(a, b)
  {
    var r := AabbMinMax(MinkowskiDifference(a, b));
    IntersectByAxes(a, b);
    r.min.x <= 0.0 && r.max.x >= 0.0 && r.min.y <= 0.0 && r.max.y >= 0.0 &&
    r.min.z <= 0.0 && r.max.z >= 0.0
  }
}
