/** The newer collision revision and the physics step of src/physics.c:
    box construction from vertices, the clamped slab ray test, the sweep of
    one body against all others and the update of every dynamic body. */
module Physics {
  import opened Common
  import opened Aabb
  import opened Bodies

  /** Below this magnitude an axis counts as parallel to its slabs (`1e-8f`). */
  const EPS: real := 0.00000001
  /** Distance a body is pushed off the contact point along the normal (`1e-4f`). */
  const NUDGE: real := 0.0001
  /** `FLT_MAX`, the largest finite single-precision value. */
  const FLT_MAX: real := 340282346638528859811704183484516925440.0

  /** The C `Hit` structure; `Hit hit = {0}` is `NoHit`. */
  datatype Hit = Hit(isHit: bool, time: real, pos: Vec3, normal: Vec3)

  const NoHit: Hit := Hit(false, 0.0, Zero, Zero)

  // ---------------------------------------------------------------------
  // aabbNew
  // ---------------------------------------------------------------------

  /** The running `min` on axis `i` over the vertices, from `seed`. */
  function LowOf(vs: seq<Vec3>, i: nat, seed: real): real
    requires i < 3
  {
    if vs == [] then seed else Min(LowOf(vs[..|vs| - 1], i, seed), vs[|vs| - 1].At(i))
  }

  /** The running `max` on axis `i` over the vertices, from `seed`. */
  function HighOf(vs: seq<Vec3>, i: nat, seed: real): real
    requires i < 3
  {
    if vs == [] then seed else Max(HighOf(vs[..|vs| - 1], i, seed), vs[|vs| - 1].At(i))
  }

  /** Every coordinate is a finite single-precision value. */
  predicate FloatRange(vs: seq<Vec3>) {
    forall j | 0 <= j < |vs| ::
      -FLT_MAX <= vs[j].x <= FLT_MAX && -FLT_MAX <= vs[j].y <= FLT_MAX && -FLT_MAX <= vs[j].z <= FLT_MAX
  }

  /** `m` is the least coordinate on axis `i`. */
  predicate IsLeast(vs: seq<Vec3>, i: nat, m: real)
    requires i < 3
  {
    (forall j | 0 <= j < |vs| :: m <= vs[j].At(i)) && (exists j | 0 <= j < |vs| :: vs[j].At(i) == m)
  }

  /** `m` is the greatest coordinate on axis `i`. */
  predicate IsGreatest(vs: seq<Vec3>, i: nat, m: real)
    requires i < 3
  {
    (forall j | 0 <= j < |vs| :: vs[j].At(i) <= m) && (exists j | 0 <= j < |vs| :: vs[j].At(i) == m)
  }

  /** `span / 2 * scale` */
  function HalfScaled(span: real, scale: real): real {
    span / 2.0 * scale
  }

  /** The half-size `aabbNew` stores: x and y spans halved and scaled by
      `width` and `height`; the z span is neither halved nor scaled. */
  function SpanHalfSize(vs: seq<Vec3>, width: real, height: real): Vec3 {
    Vec3(HalfScaled(HighOf(vs, 0, -FLT_MAX) - LowOf(vs, 0, FLT_MAX), width),
         HalfScaled(HighOf(vs, 1, -FLT_MAX) - LowOf(vs, 1, FLT_MAX), height),
         HighOf(vs, 2, -FLT_MAX) - LowOf(vs, 2, FLT_MAX))
  }

  /** Seeded with `FLT_MAX` and `-FLT_MAX`, the running minimum and maximum
      over at least one float vertex are the least and greatest coordinate. */
  lemma {:induction false} SeededExtremes(vs: seq<Vec3>, i: nat)
    requires i < 3 && |vs| >= 1 && FloatRange(vs)
    ensures IsLeast(vs, i, LowOf(vs, i, FLT_MAX))
    ensures IsGreatest(vs, i, HighOf(vs, i, -FLT_MAX))
  {
    var n := |vs|;
    if n > 1 {
      var init := vs[..n - 1];
      assert FloatRange(init) by {
        forall j | 0 <= j < |init| ensures init[j] == vs[j] { }
      }
      SeededExtremes(init, i);
      var lo := LowOf(init, i, FLT_MAX);
      var hi := HighOf(init, i, -FLT_MAX);
      forall j | 0 <= j < n
        ensures LowOf(vs, i, FLT_MAX) <= vs[j].At(i) <= HighOf(vs, i, -FLT_MAX)
      {
        if j < n - 1 { assert init[j] == vs[j]; }
      }
      var jl :| 0 <= jl < |init| && init[jl].At(i) == lo;
      var jh :| 0 <= jh < |init| && init[jh].At(i) == hi;
      assert init[jl] == vs[jl] && init[jh] == vs[jh];
      if lo <= vs[n - 1].At(i) {
        assert vs[jl].At(i) == LowOf(vs, i, FLT_MAX);
      } else {
        assert vs[n - 1].At(i) == LowOf(vs, i, FLT_MAX);
      }
      if hi >= vs[n - 1].At(i) {
        assert vs[jh].At(i) == HighOf(vs, i, -FLT_MAX);
      } else {
        assert vs[n - 1].At(i) == HighOf(vs, i, -FLT_MAX);
      }
    } else {
      assert vs[..0] == [];
      assert LowOf(vs, i, FLT_MAX) == vs[0].At(i);
      assert HighOf(vs, i, -FLT_MAX) == vs[0].At(i);
    }
  }

  /** On one axis, the seeded scan finds the extremes `lo` and `hi`. */
  lemma SpanAxis(vs: seq<Vec3>, i: nat, lo: real, hi: real)
    requires i < 3 && |vs| >= 1 && FloatRange(vs)
    requires IsLeast(vs, i, lo) && IsGreatest(vs, i, hi)
    ensures LowOf(vs, i, FLT_MAX) == lo && HighOf(vs, i, -FLT_MAX) == hi && lo <= hi
  {
    SeededExtremes(vs, i);
    var j1 :| 0 <= j1 < |vs| && vs[j1].At(i) == lo;
    var j2 :| 0 <= j2 < |vs| && vs[j2].At(i) == LowOf(vs, i, FLT_MAX);
    var j3 :| 0 <= j3 < |vs| && vs[j3].At(i) == hi;
    var j4 :| 0 <= j4 < |vs| && vs[j4].At(i) == HighOf(vs, i, -FLT_MAX);
    assert lo <= vs[0].At(i) <= hi;
  }

  /** With at least one float vertex whose least and greatest coordinates
      are `minx` ... `maxz`, `aabbNew` stores half the x span times `width`,
      half the y span times `height`, and the whole z span. */
  lemma SpanHalfSizeIsExtent(vs: seq<Vec3>, width: real, height: real,
                             minx: real, maxx: real, miny: real, maxy: real, minz: real, maxz: real)
    requires |vs| >= 1 && FloatRange(vs)
    requires IsLeast(vs, 0, minx) && IsGreatest(vs, 0, maxx)
    requires IsLeast(vs, 1, miny) && IsGreatest(vs, 1, maxy)
    requires IsLeast(vs, 2, minz) && IsGreatest(vs, 2, maxz)
    ensures SpanHalfSize(vs, width, height) == Vec3(HalfScaled(maxx - minx, width), HalfScaled(maxy - miny, height), maxz - minz)
  {
    SpanAxis(vs, 0, minx, maxx);
    SpanAxis(vs, 1, miny, maxy);
    SpanAxis(vs, 2, minz, maxz);
  }

  /** With at least one float vertex, the stored half-size is non-negative
      on every axis when `width` and `height` are. */
  lemma SpanHalfSizeNonNegative(vs: seq<Vec3>, width: real, height: real)
    requires |vs| >= 1 && FloatRange(vs) && width >= 0.0 && height >= 0.0
    ensures NonNegative(SpanHalfSize(vs, width, height))
  {
    SeededExtremes(vs, 0);
    SeededExtremes(vs, 1);
    SeededExtremes(vs, 2);
    var sx := HighOf(vs, 0, -FLT_MAX) - LowOf(vs, 0, FLT_MAX);
    var sy := HighOf(vs, 1, -FLT_MAX) - LowOf(vs, 1, FLT_MAX);
    assert sx >= 0.0 && sy >= 0.0;
    HalfScaledNonNegative(sx, width);
    HalfScaledNonNegative(sy, height);
  }

  /** Half a non-negative span, scaled by a non-negative factor, is
      non-negative. */
  lemma HalfScaledNonNegative(span: real, scale: real)
    requires span >= 0.0 && scale >= 0.0
    ensures HalfScaled(span, scale) >= 0.0
  {
    assert span / 2.0 >= 0.0;
  }

  /** One more vertex updates the running extremes on every axis. */
  lemma ScanStep(vs: seq<Vec3>, i: nat)
    requires i < |vs|
    ensures forall a, s | 0 <= a < 3 :: LowOf(vs[..i + 1], a, s) == Min(LowOf(vs[..i], a, s), vs[i].At(a))
    ensures forall a, s | 0 <= a < 3 :: HighOf(vs[..i + 1], a, s) == Max(HighOf(vs[..i], a, s), vs[i].At(a))
  {
    assert vs[..i + 1][..i] == vs[..i];
  }

  /** `aabbNew(vertices, n, body)` with `n == |vertices|`: scans the vertices
      for the per-axis minimum and maximum and stores the half-size. */
  method AabbNew(vertices: seq<Vec3>, body: Body)
    modifies body
    ensures body.State() == old(body.State()).(halfsize := SpanHalfSize(vertices, body.width, body.height))
  {
    var min := Vec3(FLT_MAX, FLT_MAX, FLT_MAX);
    var max := Vec3(-FLT_MAX, -FLT_MAX, -FLT_MAX);
    for i := 0 to |vertices|
      invariant unchanged(body)
      invariant min == Vec3(LowOf(vertices[..i], 0, FLT_MAX), LowOf(vertices[..i], 1, FLT_MAX), LowOf(vertices[..i], 2, FLT_MAX))
      invariant max == Vec3(HighOf(vertices[..i], 0, -FLT_MAX), HighOf(vertices[..i], 1, -FLT_MAX), HighOf(vertices[..i], 2, -FLT_MAX))
    {
      ScanStep(vertices, i);
      min := Vec3(Min(min.x, vertices[i].x), Min(min.y, vertices[i].y), Min(min.z, vertices[i].z));
      max := Vec3(Max(max.x, vertices[i].x), Max(max.y, vertices[i].y), Max(max.z, vertices[i].z));
    }
    assert vertices[..|vertices|] == vertices;
    body.halfsize := Vec3(HalfScaled(max.x - min.x, body.width),
                          HalfScaled(max.y - min.y, body.height),
                          max.z - min.z);
  }

  // ---------------------------------------------------------------------
  // aabbIntersectRay (slab method, clamped to t in [0, 1])
  // ---------------------------------------------------------------------

  function Lo(b: Box, i: nat): real
    requires i < 3
  {
    AabbMinMax(b).min.At(i)
  }

  function Hi(b: Box, i: nat): real
    requires i < 3
  {
    AabbMinMax(b).max.At(i)
  }

  /** `fabsf(magnitude[i]) > 1e-8f` fails: the ray runs parallel to the slabs. */
  predicate Parallel(mag: Vec3, i: nat)
    requires i < 3
  {
    Abs(mag.At(i)) <= EPS
  }

  /** Parameter at which the ray enters slab `i` (`tNear`). */
  function Near(pos: Vec3, mag: Vec3, b: Box, i: nat): real
    requires i < 3 && !Parallel(mag, i)
  {
    Min((Lo(b, i) - pos.At(i)) / mag.At(i), (Hi(b, i) - pos.At(i)) / mag.At(i))
  }

  /** Parameter at which the ray leaves slab `i` (`tFar`). */
  function Far(pos: Vec3, mag: Vec3, b: Box, i: nat): real
    requires i < 3 && !Parallel(mag, i)
  {
    Max((Lo(b, i) - pos.At(i)) / mag.At(i), (Hi(b, i) - pos.At(i)) / mag.At(i))
  }

  /** Latest entry over the first `k` axes, never earlier than 0. */
  function Entry(pos: Vec3, mag: Vec3, b: Box, k: nat): real
    requires k <= 3
  {
    if k == 0 then 0.0
    else if Parallel(mag, k - 1) then Entry(pos, mag, b, k - 1)
    else Max(Entry(pos, mag, b, k - 1), Near(pos, mag, b, k - 1))
  }

  /** Earliest exit over the first `k` axes, never later than 1. */
  function Exit(pos: Vec3, mag: Vec3, b: Box, k: nat): real
    requires k <= 3
  {
    if k == 0 then 1.0
    else if Parallel(mag, k - 1) then Exit(pos, mag, b, k - 1)
    else Min(Exit(pos, mag, b, k - 1), Far(pos, mag, b, k - 1))
  }

  /** Strictly outside the closed slab of axis `i`: a face counts as inside. */
  predicate OutsideSlab(pos: Vec3, b: Box, i: nat)
    requires i < 3
  {
    pos.At(i) < Lo(b, i) || pos.At(i) > Hi(b, i)
  }

  /** One of the first `k` axes is parallel and the origin lies outside it. */
  predicate Blocked(pos: Vec3, mag: Vec3, b: Box, k: nat)
    requires k <= 3
  {
    k > 0 && (Blocked(pos, mag, b, k - 1) || (Parallel(mag, k - 1) && OutsideSlab(pos, b, k - 1)))
  }

  /** How deep `p` sits inside `b` on axis `i` (`px`, `py`, `pz`). */
  function Penetration(p: Vec3, b: Box, i: nat): real
    requires i < 3
  {
    b.halfsize.At(i) - Abs(p.At(i) - b.pos.At(i))
  }

  /** The contact normal: a signed unit on the axis of least penetration,
      pointing from the box centre towards the contact point. Ties fall
      through from x to y and from y to z, so the axis chosen is strictly
      shallower than every later axis. */
  function ContactNormal(p: Vec3, b: Box): (n: Vec3)
    ensures AtMostOneAxis(n)
    ensures IsSignValue(n.x) && IsSignValue(n.y) && IsSignValue(n.z)
    ensures forall i, j | 0 <= i < 3 && 0 <= j < 3 ::
      n.At(i) != 0.0 ==> Penetration(p, b, i) <= Penetration(p, b, j)
    ensures forall i | 0 <= i < 3 :: n.At(i) != 0.0 ==> n.At(i) == Sign(p.At(i) - b.pos.At(i))
    ensures n.x != 0.0 ==> Penetration(p, b, 0) < Penetration(p, b, 1) && Penetration(p, b, 0) < Penetration(p, b, 2)
    ensures n.y != 0.0 ==> Penetration(p, b, 1) < Penetration(p, b, 2)
  {
    var d := p.Sub(b.pos);
    var px := b.halfsize.x - Abs(d.x);
    var py := b.halfsize.y - Abs(d.y);
    var pz := b.halfsize.z - Abs(d.z);
    if px < py && px < pz then Unit(0, Sign(d.x))
    else if py < pz then Unit(1, Sign(d.y))
    else Unit(2, Sign(d.z))
  }

  /** The normal is the sign of the offset on one axis and 0 on the
      others, and that axis is of least penetration and strictly shallower
      than every later axis: the normal is never left zeroed for want of an
      axis. */
  lemma ContactNormalIsSignedUnit(p: Vec3, b: Box)
    ensures exists i | 0 <= i < 3 ::
      && ContactNormal(p, b) == Unit(i, Sign(p.At(i) - b.pos.At(i)))
      && (forall j | 0 <= j < 3 :: Penetration(p, b, i) <= Penetration(p, b, j))
      && (forall j | i < j < 3 :: Penetration(p, b, i) < Penetration(p, b, j))
  {
    var px, py, pz := Penetration(p, b, 0), Penetration(p, b, 1), Penetration(p, b, 2);
    var i := if px < py && px < pz then 0 else if py < pz then 1 else 2;
    assert ContactNormal(p, b) == Unit(i, Sign(p.At(i) - b.pos.At(i)));
  }

  /** Reference definition of the ray test: a miss when a parallel axis
      leaves the origin outside its slab or the entry comes after the exit;
      otherwise a hit at the latest entry time. */
  function RayCast(pos: Vec3, mag: Vec3, b: Box): Hit {
    if Blocked(pos, mag, b, 3) || Entry(pos, mag, b, 3) > Exit(pos, mag, b, 3) then NoHit
    else
      var t := Entry(pos, mag, b, 3);
      var p := pos.Add(mag.Scale(t));
      Hit(true, t, p, ContactNormal(p, b))
  }

  lemma {:induction false} EntryExitMonotone(pos: Vec3, mag: Vec3, b: Box, k: nat)
    requires k <= 3
    ensures Entry(pos, mag, b, k) <= Entry(pos, mag, b, 3)
    ensures Exit(pos, mag, b, 3) <= Exit(pos, mag, b, k)
    ensures Blocked(pos, mag, b, k) ==> Blocked(pos, mag, b, 3)
    decreases 3 - k
  {
    if k < 3 {
      EntryExitMonotone(pos, mag, b, k + 1);
    }
  }

  lemma {:induction false} EntryExitRange(pos: Vec3, mag: Vec3, b: Box, k: nat)
    requires k <= 3
    ensures 0.0 <= Entry(pos, mag, b, k) && Exit(pos, mag, b, k) <= 1.0
  {
    if k > 0 {
      EntryExitRange(pos, mag, b, k - 1);
    }
  }

  /** `aabbIntersectRay(pos, magnitude, body)`. */
  method AabbIntersectRay(pos: Vec3, magnitude: Vec3, body: Box) returns (hit: Hit)
    ensures hit == RayCast(pos, magnitude, body)
    ensures !hit.isHit ==> hit == NoHit
  {
    hit := NoHit;
    var bounds := AabbMinMax(body);
    var tmin, tmax := 0.0, 1.0;
    for i := 0 to 3
      invariant tmin == Entry(pos, magnitude, body, i) && tmax == Exit(pos, magnitude, body, i)
      invariant 0.0 <= tmin <= tmax <= 1.0
      invariant !Blocked(pos, magnitude, body, i)
    {
      if Abs(magnitude.At(i)) > EPS {
        var t1 := (bounds.min.At(i) - pos.At(i)) / magnitude.At(i);
        var t2 := (bounds.max.At(i) - pos.At(i)) / magnitude.At(i);
        var tNear := Min(t1, t2);
        var tFar := Max(t1, t2);
        assert tNear == Near(pos, magnitude, body, i) && tFar == Far(pos, magnitude, body, i);
        tmin := Max(tmin, tNear);
        tmax := Min(tmax, tFar);
        assert tmin == Entry(pos, magnitude, body, i + 1) && tmax == Exit(pos, magnitude, body, i + 1);
        if tmin > tmax {
          EntryExitMonotone(pos, magnitude, body, i + 1);
          return;
        }
      } else {
        // the ray is parallel to the slab
        if pos.At(i) < bounds.min.At(i) || pos.At(i) > bounds.max.At(i) {
          EntryExitMonotone(pos, magnitude, body, i + 1);
          return;
        }
      }
    }
    if tmin <= tmax {
      hit := HitAt(pos, magnitude, body, tmin);
    }
  }

  /** The hit record of `aabbIntersectRay` once the entry time `t` is known:
      the contact position and the least-penetration normal. */
  method HitAt(pos: Vec3, magnitude: Vec3, body: Box, t: real) returns (hit: Hit)
    ensures hit.isHit && hit.time == t && hit.pos == pos.Add(magnitude.Scale(t))
    ensures hit.normal == ContactNormal(hit.pos, body)
  {
    var p := Vec3(pos.x + magnitude.x * t, pos.y + magnitude.y * t, pos.z + magnitude.z * t);
    assert p == pos.Add(magnitude.Scale(t));
    var dx := p.x - body.pos.x;
    var dy := p.y - body.pos.y;
    var dz := p.z - body.pos.z;
    // penetration depth on each axis
    var px := body.halfsize.x - Abs(dx);
    var py := body.halfsize.y - Abs(dy);
    var pz := body.halfsize.z - Abs(dz);
    var normal := Zero;
    if px < py && px < pz {
      normal := normal.(x := Sign(dx));
    } else if py < pz {
      normal := normal.(y := Sign(dy));
    } else {
      normal := normal.(z := Sign(dz));
    }
    hit := Hit(true, t, p, normal);
  }

  /** A reported hit lies within this frame's motion, `0 <= time <= 1`, at
      `pos + magnitude * time`, and a miss is the all-zero `Hit`. */
  lemma RayHitWithinMotion(pos: Vec3, mag: Vec3, b: Box)
    ensures var h := RayCast(pos, mag, b);
      h.isHit ==> 0.0 <= h.time <= 1.0 && h.pos == pos.Add(mag.Scale(h.time))
    ensures !RayCast(pos, mag, b).isHit ==> RayCast(pos, mag, b) == NoHit
  {
    EntryExitRange(pos, mag, b, 3);
  }

  /** A parallel axis (`|magnitude[i]| <= 1e-8`) whose slab does not contain
      the origin rules out a hit. */
  lemma ParallelOutsideMisses(pos: Vec3, mag: Vec3, b: Box, i: nat)
    requires i < 3 && Parallel(mag, i) && OutsideSlab(pos, b, i)
    ensures !RayCast(pos, mag, b).isHit
  {
    EntryExitMonotone(pos, mag, b, i + 1);
  }

  /** An origin inside the closed slab of a moving axis is between the
      entry and the exit parameters of that slab. */
  lemma NearFarStraddleZero(pos: Vec3, mag: Vec3, b: Box, i: nat)
    requires i < 3 && !Parallel(mag, i) && Lo(b, i) <= pos.At(i) <= Hi(b, i)
    ensures Near(pos, mag, b, i) <= 0.0 <= Far(pos, mag, b, i)
  {
    var m := mag.At(i);
    var a := Lo(b, i) - pos.At(i);
    var c := Hi(b, i) - pos.At(i);
    assert a <= 0.0 <= c;
    if m > 0.0 {
      assert a / m <= 0.0;
      assert c / m >= 0.0;
    } else {
      assert a / m >= 0.0;
      assert c / m <= 0.0;
    }
  }

  lemma {:induction false} InsideEntryExit(pos: Vec3, mag: Vec3, b: Box, k: nat)
    requires k <= 3 && InBox(b, pos)
    ensures Entry(pos, mag, b, k) == 0.0 && Exit(pos, mag, b, k) >= 0.0
    ensures !Blocked(pos, mag, b, k)
  {
    if k > 0 {
      InsideEntryExit(pos, mag, b, k - 1);
      assert Lo(b, k - 1) <= pos.At(k - 1) <= Hi(b, k - 1);
      if !Parallel(mag, k - 1) {
        NearFarStraddleZero(pos, mag, b, k - 1);
      }
    }
  }

  /** An origin inside the closed box, faces included, is reported as a hit
      at time 0 at the origin itself, whatever the magnitude. */
  lemma InsideHitsAtZero(pos: Vec3, mag: Vec3, b: Box)
    requires InBox(b, pos)
    ensures RayCast(pos, mag, b).isHit
    ensures RayCast(pos, mag, b).time == 0.0 && RayCast(pos, mag, b).pos == pos
  {
    InsideEntryExit(pos, mag, b, 3);
  }

  // ---------------------------------------------------------------------
  // physicsSweep
  // ---------------------------------------------------------------------

  /** The boxes `physicsSweep` casts `b` against, in table order: every body
      other than `b` itself, centred where that body is, with the sum of the
      two half-sizes. */
  function Obstacles(b: Body, bodies: seq<Body>): seq<Box>
    reads b, set o | o in bodies
  {
    if bodies == [] then []
    else
      var other := bodies[|bodies| - 1];
      Obstacles(b, bodies[..|bodies| - 1]) +
      (if other == b then [] else [Box(other.pos, b.halfsize.Add(other.halfsize))])
  }

  /** The ray test of the displacement against each obstacle. */
  function Hits(pos: Vec3, disp: Vec3, obs: seq<Box>): seq<Hit> {
    seq(|obs|, j requires 0 <= j < |obs| => RayCast(pos, disp, obs[j]))
  }

  /** The index `physicsSweep` keeps as `closest`: a hit whose time is
      minimal; on a tie the earlier index stays, since a later hit replaces
      it only when strictly earlier. */
  function Earliest(hits: seq<Hit>): (r: Option<nat>)
    ensures r.None? <==> forall j | 0 <= j < |hits| :: !hits[j].isHit
    ensures r.Some? ==> r.value < |hits| && hits[r.value].isHit
    ensures r.Some? ==> forall j | 0 <= j < |hits| && hits[j].isHit :: hits[r.value].time <= hits[j].time
    ensures r.Some? ==> forall j | 0 <= j < r.value && hits[j].isHit :: hits[r.value].time < hits[j].time
  {
    if hits == [] then None
    else
      var init := hits[..|hits| - 1];
      var prev := Earliest(init);
      var last := hits[|hits| - 1];
      assert forall j | 0 <= j < |init| :: init[j] == hits[j];
      if last.isHit && (prev.None? || last.time < init[prev.value].time) then Some(|hits| - 1)
      else prev
  }

  /** The hit kept by the sweep, if any. */
  function Closest(hits: seq<Hit>): Option<Hit> {
    match Earliest(hits)
    case None => None
    case Some(k) => Some(hits[k])
  }

  /** The new position and the (local) velocity after a sweep. */
  datatype Motion = Motion(pos: Vec3, velocity: Vec3)

  /** The velocity with the component of the normal's axis zeroed: x if the
      normal has an x component, else y, else z. */
  function ZeroAxis(v: Vec3, n: Vec3): Vec3 {
    if n.x != 0.0 then v.(x := 0.0) else if n.y != 0.0 then v.(y := 0.0) else v.(z := 0.0)
  }

  /** Reference definition of one sweep: move by the whole displacement when
      nothing is hit; otherwise snap to the earliest contact point, pushed
      off along its normal, and zero one velocity component. */
  function Resolve(pos: Vec3, disp: Vec3, obs: seq<Box>): Motion {
    Outcome(pos, disp, Hits(pos, disp, obs))
  }

  /** The sweep's outcome once the hit against each obstacle, in table
      order, is known. */
  function Outcome(pos: Vec3, disp: Vec3, hs: seq<Hit>): Motion {
    match Closest(hs)
    case None => Motion(pos.Add(disp), disp)
    case Some(h) => Motion(h.pos.Add(h.normal.Scale(NUDGE)), ZeroAxis(disp, h.normal))
  }

  lemma EarliestSnoc(hits: seq<Hit>, h: Hit)
    ensures Earliest(hits + [h]) ==
      if h.isHit && (Earliest(hits).None? || h.time < hits[Earliest(hits).value].time)
      then Some(|hits|) else Earliest(hits)
  {
    assert (hits + [h])[..|hits|] == hits;
  }

  lemma ObstaclesSnoc(b: Body, bodies: seq<Body>, i: nat)
    requires i < |bodies|
    ensures Obstacles(b, bodies[..i + 1]) == Obstacles(b, bodies[..i]) +
      (if bodies[i] == b then [] else [Box(bodies[i].pos, b.halfsize.Add(bodies[i].halfsize))])
  {
    assert bodies[..i + 1][..i] == bodies[..i];
  }

  lemma HitsSnoc(pos: Vec3, disp: Vec3, obs: seq<Box>, o: Box)
    ensures Hits(pos, disp, obs + [o]) == Hits(pos, disp, obs) + [RayCast(pos, disp, o)]
  {
  }

  /** One more candidate replaces the kept hit only when it hits strictly
      earlier. */
  lemma ClosestSnoc(hits: seq<Hit>, h: Hit)
    ensures Closest(hits + [h]) ==
      if h.isHit && (Closest(hits).None? || h.time < Closest(hits).value.time)
      then Some(h) else Closest(hits)
  {
    EarliestSnoc(hits, h);
  }

  /** The loop of `physicsSweep`: the earliest hit of `b`'s motion among
      the other bodies. */
  method ClosestHit(b: Body, velocity: Vec3, bodies: seq<Body>) returns (closest: Option<Hit>)
    ensures closest == Closest(Hits(b.pos, velocity, Obstacles(b, bodies)))
  {
    // `closest.time = INFINITY` with `is_hit` false: nothing kept yet
    closest := None;
    for i := 0 to |bodies|
      invariant closest == Closest(Hits(b.pos, velocity, Obstacles(b, bodies[..i])))
    {
      ObstaclesSnoc(b, bodies, i);
      var other := bodies[i];
      if other == b {
        assert Obstacles(b, bodies[..i + 1]) == Obstacles(b, bodies[..i]);
        continue;
      }
      var expanded := Box(other.pos, b.halfsize.Add(other.halfsize));
      var hit := AabbIntersectRay(b.pos, velocity, expanded);
      ghost var hs := Hits(b.pos, velocity, Obstacles(b, bodies[..i]));
      assert Obstacles(b, bodies[..i + 1]) == Obstacles(b, bodies[..i]) + [expanded];
      HitsSnoc(b.pos, velocity, Obstacles(b, bodies[..i]), expanded);
      ClosestSnoc(hs, hit);
      ghost var next := Closest(hs + [hit]);
      if hit.isHit && (closest.None? || hit.time < closest.value.time) {
        closest := Some(hit);
      }
      assert closest == next;
    }
    assert bodies[..|bodies|] == bodies;
  }

  /** `physicsSweep(b, velocity, things)`: `velocity` is the caller's
      scaled copy, returned with one component zeroed on a hit. */
  method PhysicsSweep(b: Body, velocity: Vec3, bodies: seq<Body>) returns (velocityOut: Vec3)
    modifies b
    ensures Motion(b.pos, velocityOut) == Resolve(old(b.pos), velocity, old(Obstacles(b, bodies)))
    ensures b.State() == old(b.State()).(pos := b.pos)
  {
    var closest := ClosestHit(b, velocity, bodies);
    velocityOut := velocity;
    if closest.None? {
      b.pos := b.pos.Add(velocity);
      return;
    }
    var h := closest.value;
    // remove the velocity along the axis of the collision
    if h.normal.x != 0.0 {
      velocityOut := velocityOut.(x := 0.0);
    } else if h.normal.y != 0.0 {
      velocityOut := velocityOut.(y := 0.0);
    } else {
      velocityOut := velocityOut.(z := 0.0);
    }
    b.pos := h.pos.Add(h.normal.Scale(NUDGE));
  }

  // ---------------------------------------------------------------------
  // physicsUpdate, on values
  // ---------------------------------------------------------------------

  /** The obstacles of the body at index `k`, built from the first `n`
      entries of a table of body values. */
  function ObstaclesOf(s: seq<BodyState>, k: nat, n: nat): seq<Box>
    requires k < |s| && n <= |s|
  {
    if n == 0 then []
    else
      ObstaclesOf(s, k, n - 1) +
      (if n - 1 == k then [] else [Box(s[n - 1].pos, s[k].halfsize.Add(s[n - 1].halfsize))])
  }

  /** The sweep of the body at index `k`, if it is dynamic, over the current
      table; only its position is kept, as the zeroed velocity copy is
      discarded by the caller. */
  function Advance(s: seq<BodyState>, k: nat, dt: real): (r: seq<BodyState>)
    requires k < |s|
  {
    if !s[k].isDynamic then s
    else s[k := s[k].(pos := Resolve(s[k].pos, s[k].velocity.Scale(dt), ObstaclesOf(s, k, |s|)).pos)]
  }

  /** The table after the first `n` bodies have been swept, in order: each
      sweep sees the positions the earlier ones produced. */
  function StepPrefix(s: seq<BodyState>, dt: real, n: nat): (r: seq<BodyState>)
    requires n <= |s|
    ensures |r| == |s|
  {
    if n == 0 then s else Advance(StepPrefix(s, dt, n - 1), n - 1, dt)
  }

  /** One `physicsUpdate` over the whole table. */
  function Step(s: seq<BodyState>, dt: real): seq<BodyState> {
    StepPrefix(s, dt, |s|)
  }

  /** With distinct bodies, the objects the sweep of `bodies[k]` reads are
      the value-level obstacles of index `k`: the self test is the index
      test. */
  lemma {:induction false} ObstaclesAgree(bodies: seq<Body>, k: nat, n: nat)
    requires Distinct(bodies) && k < |bodies| && n <= |bodies|
    ensures Obstacles(bodies[k], bodies[..n]) == ObstaclesOf(States(bodies), k, n)
  {
    if n > 0 {
      ObstaclesAgree(bodies, k, n - 1);
      ObstaclesSnoc(bodies[k], bodies, n - 1);
      assert bodies[n - 1] == bodies[k] <==> n - 1 == k;
    }
  }

  /** `physicsUpdate(things, delta_time)`: every dynamic body, in table
      order, is swept by its velocity scaled by the time step. */
  method PhysicsUpdate(bodies: seq<Body>, dt: real)
    requires Distinct(bodies)
    modifies set b | b in bodies
    ensures States(bodies) == Step(old(States(bodies)), dt)
  {
    ghost var s0 := States(bodies);
    for i := 0 to |bodies|
      invariant States(bodies) == StepPrefix(s0, dt, i)
    {
      var b := bodies[i];
      if !b.isDynamic {
        continue;
      }
      var scaledVelocity := b.velocity.Scale(dt);
      ghost var before := States(bodies);
      ObstaclesAgree(bodies, i, |bodies|);
      assert bodies[..|bodies|] == bodies;
      ghost var m := Resolve(before[i].pos, before[i].velocity.Scale(dt), ObstaclesOf(before, i, |bodies|));
      label Sweep:
      var discarded := PhysicsSweep(b, scaledVelocity, bodies);
      assert b.State() == before[i].(pos := m.pos);
      assert forall j | 0 <= j < |bodies| && j != i :: bodies[j].State() == old@Sweep(bodies[j].State());
      assert Advance(before, i, dt) == before[i := before[i].(pos := m.pos)];
    }
  }

  // ---------------------------------------------------------------------
  // Properties of the sweep and of the update
  // ---------------------------------------------------------------------

  /** The two outcomes of a sweep. With no hit the body moves by the whole
      displacement and keeps it; otherwise some obstacle `k` is hit no later
      than any other (strictly earlier than every hit before it), the body
      is placed at its contact point pushed along its normal, and one
      component of the displacement is zeroed. */
  lemma SweepOutcome(pos: Vec3, disp: Vec3, hs: seq<Hit>)
    ensures (forall j | 0 <= j < |hs| :: !hs[j].isHit) ==>
      Outcome(pos, disp, hs) == Motion(pos.Add(disp), disp)
    ensures (exists j | 0 <= j < |hs| :: hs[j].isHit) ==>
      exists k | 0 <= k < |hs| ::
        && hs[k].isHit
        && (forall j | 0 <= j < |hs| && hs[j].isHit :: hs[k].time <= hs[j].time)
        && (forall j | 0 <= j < k && hs[j].isHit :: hs[k].time < hs[j].time)
        && Outcome(pos, disp, hs) ==
           Motion(hs[k].pos.Add(hs[k].normal.Scale(NUDGE)), ZeroAxis(disp, hs[k].normal))
  {
    var e := Earliest(hs);
    if e.Some? {
      assert hs[e.value].isHit;
    }
  }

  /** `ZeroAxis` zeroes exactly one component and keeps the other two:
      the first axis on which the normal is non-zero, z when it is zero. */
  lemma ZeroAxisClearsOne(v: Vec3, n: Vec3)
    ensures var r := ZeroAxis(v, n);
      && (n.x != 0.0 ==> r == Vec3(0.0, v.y, v.z))
      && (n.x == 0.0 && n.y != 0.0 ==> r == Vec3(v.x, 0.0, v.z))
      && (n.x == 0.0 && n.y == 0.0 ==> r == Vec3(v.x, v.y, 0.0))
  {
  }

  /** A sweep never tests a body against its own box: of `n` table entries,
      every one but index `k` contributes an obstacle. */
  lemma {:induction false} ObstaclesOfSkipsSelf(s: seq<BodyState>, k: nat, n: nat)
    requires k < |s| && n <= |s|
    ensures |ObstaclesOf(s, k, n)| == if k < n then n - 1 else n
    ensures forall j | 0 <= j < n && j != k ::
      Box(s[j].pos, s[k].halfsize.Add(s[j].halfsize)) ==
      ObstaclesOf(s, k, n)[if j < k then j else j - 1]
  {
    if n > 0 {
      ObstaclesOfSkipsSelf(s, k, n - 1);
    }
  }

  /** An update changes nothing but positions, and only those of dynamic
      bodies. */
  lemma {:induction false} StepPrefixMovesOnlyDynamic(s: seq<BodyState>, dt: real, n: nat)
    requires n <= |s|
    ensures forall k | 0 <= k < |s| ::
      StepPrefix(s, dt, n)[k] == s[k].(pos := StepPrefix(s, dt, n)[k].pos)
    ensures forall k | 0 <= k < |s| && !s[k].isDynamic :: StepPrefix(s, dt, n)[k] == s[k]
  {
    if n > 0 {
      StepPrefixMovesOnlyDynamic(s, dt, n - 1);
    }
  }

  lemma StepMovesOnlyDynamic(s: seq<BodyState>, dt: real)
    ensures |Step(s, dt)| == |s|
    ensures forall k | 0 <= k < |s| :: Step(s, dt)[k] == s[k].(pos := Step(s, dt)[k].pos)
    ensures forall k | 0 <= k < |s| && !s[k].isDynamic :: Step(s, dt)[k] == s[k]
  {
    StepPrefixMovesOnlyDynamic(s, dt, |s|);
  }

  /** A dynamic body alone in the table meets nothing and moves by its
      velocity times the time step. */
  lemma LoneBodyMovesFreely(s: BodyState, dt: real)
    requires s.isDynamic
    ensures Step([s], dt) == [s.(pos := s.pos.Add(s.velocity.Scale(dt)))]
  {
    var disp := s.velocity.Scale(dt);
    assert ObstaclesOf([s], 0, 1) == [];
    assert Closest(Hits(s.pos, disp, [])) == None;
    assert StepPrefix([s], dt, 0) == [s];
    assert Step([s], dt) == StepPrefix([s], dt, 1) == Advance([s], 0, dt);
  }
}
