/** The older collision revision of src/thing.c: box construction from
    vertices and the unclamped slab ray test, whose entry and exit start at
    minus and plus infinity. `aabbMinMax`, `aabbMinkowskiDifference` and
    `aabbCollide` are shared with src/physics.c and live in `Aabb`. */
module Legacy {
  import opened Common
  import opened Aabb
  import opened Bodies
  import Physics

  /** `FLT_MIN`, the smallest positive normal single-precision value, 2^-126. */
  const FLT_MIN: real := 1.0 / 85070591730234615865843651857942052864.0

  /** `TRIANGLE_VERTICES` read as three `vec3`. */
  const TRIANGLE: seq<Vec3> := [Vec3(-0.5, -0.5, 0.0), Vec3(0.5, -0.5, 0.0), Vec3(0.0, 0.5, 0.0)]

  /** `SQUARE_VERTICES` read as four `vec3`. */
  const SQUARE: seq<Vec3> :=
    [Vec3(-0.5, -0.5, 0.0), Vec3(0.5, -0.5, 0.0), Vec3(0.5, 0.5, 0.0), Vec3(-0.5, 0.5, 0.0)]

  // ---------------------------------------------------------------------
  // aabbNew
  // ---------------------------------------------------------------------

  /** The half-size this revision stores when the running maximum starts
      at `highSeed` (the running minimum starts at `FLT_MAX`): every span is
      halved, x and y are also scaled by `width` and `height`. */
  function HalfSizeFrom(vs: seq<Vec3>, width: real, height: real, highSeed: real): Vec3 {
    Vec3(Physics.HalfScaled(Physics.HighOf(vs, 0, highSeed) - Physics.LowOf(vs, 0, Physics.FLT_MAX), width),
         Physics.HalfScaled(Physics.HighOf(vs, 1, highSeed) - Physics.LowOf(vs, 1, Physics.FLT_MAX), height),
         (Physics.HighOf(vs, 2, highSeed) - Physics.LowOf(vs, 2, Physics.FLT_MAX)) / 2.0)
  }

  /** The half-size as written: the maximum is seeded with `FLT_MIN`, a
      tiny positive number, where the most negative float was meant. */
  function AsWrittenHalfSize(vs: seq<Vec3>, width: real, height: real): Vec3 {
    HalfSizeFrom(vs, width, height, FLT_MIN)
  }

  /** The half-size with the maximum seeded by `-FLT_MAX`. */
  function HalfSize(vs: seq<Vec3>, width: real, height: real): Vec3 {
    HalfSizeFrom(vs, width, height, -Physics.FLT_MAX)
  }

  /** For float vertices, a running maximum seeded at `s >= -FLT_MAX` is
      the larger of `s` and the true running maximum. */
  lemma {:induction false} HighOfSeed(vs: seq<Vec3>, i: nat, s: real)
    requires i < 3 && Physics.FloatRange(vs) && s >= -Physics.FLT_MAX
    ensures Physics.HighOf(vs, i, s) == Max(s, Physics.HighOf(vs, i, -Physics.FLT_MAX))
  {
    if vs != [] {
      var init := vs[..|vs| - 1];
      assert Physics.FloatRange(init) by {
        forall j | 0 <= j < |init| ensures init[j] == vs[j] { }
      }
      HighOfSeed(init, i, s);
    }
  }

  /** What the as-written seed computes: on every axis the maximum is
      replaced by `max(FLT_MIN, maximum)`, so an axis whose coordinates are
      all at most zero gets a span of `FLT_MIN - minimum`. */
  lemma AsWrittenHalfSizeClamps(vs: seq<Vec3>, width: real, height: real,
                                minx: real, maxx: real, miny: real, maxy: real, minz: real, maxz: real)
    requires |vs| >= 1 && Physics.FloatRange(vs)
    requires Physics.IsLeast(vs, 0, minx) && Physics.IsGreatest(vs, 0, maxx)
    requires Physics.IsLeast(vs, 1, miny) && Physics.IsGreatest(vs, 1, maxy)
    requires Physics.IsLeast(vs, 2, minz) && Physics.IsGreatest(vs, 2, maxz)
    ensures AsWrittenHalfSize(vs, width, height) ==
      Vec3(Physics.HalfScaled(Max(FLT_MIN, maxx) - minx, width),
           Physics.HalfScaled(Max(FLT_MIN, maxy) - miny, height),
           (Max(FLT_MIN, maxz) - minz) / 2.0)
  {
    Physics.SpanAxis(vs, 0, minx, maxx);
    Physics.SpanAxis(vs, 1, miny, maxy);
    Physics.SpanAxis(vs, 2, minz, maxz);
    HighOfSeed(vs, 0, FLT_MIN);
    HighOfSeed(vs, 1, FLT_MIN);
    HighOfSeed(vs, 2, FLT_MIN);
  }

  /** With the `-FLT_MAX` seed the stored half-size is half of the true
      extent on every axis, x and y scaled, and non-negative when the
      scales are. */
  lemma HalfSizeIsExtent(vs: seq<Vec3>, width: real, height: real,
                         minx: real, maxx: real, miny: real, maxy: real, minz: real, maxz: real)
    requires |vs| >= 1 && Physics.FloatRange(vs)
    requires Physics.IsLeast(vs, 0, minx) && Physics.IsGreatest(vs, 0, maxx)
    requires Physics.IsLeast(vs, 1, miny) && Physics.IsGreatest(vs, 1, maxy)
    requires Physics.IsLeast(vs, 2, minz) && Physics.IsGreatest(vs, 2, maxz)
    ensures HalfSize(vs, width, height) ==
      Vec3(Physics.HalfScaled(maxx - minx, width), Physics.HalfScaled(maxy - miny, height), (maxz - minz) / 2.0)
    ensures width >= 0.0 && height >= 0.0 ==> NonNegative(HalfSize(vs, width, height))
  {
    Physics.SpanAxis(vs, 0, minx, maxx);
    Physics.SpanAxis(vs, 1, miny, maxy);
    Physics.SpanAxis(vs, 2, minz, maxz);
    if width >= 0.0 && height >= 0.0 {
      Physics.HalfScaledNonNegative(maxx - minx, width);
      Physics.HalfScaledNonNegative(maxy - miny, height);
    }
  }

  // The extremes of the built-in shapes, one axis at a time.

  lemma TriangleX()
    ensures Physics.IsLeast(TRIANGLE, 0, -0.5) && Physics.IsGreatest(TRIANGLE, 0, 0.5)
  {
    assert TRIANGLE[0].At(0) == -0.5 && TRIANGLE[1].At(0) == 0.5;
  }

  lemma TriangleY()
    ensures Physics.IsLeast(TRIANGLE, 1, -0.5) && Physics.IsGreatest(TRIANGLE, 1, 0.5)
  {
    assert TRIANGLE[0].At(1) == -0.5 && TRIANGLE[2].At(1) == 0.5;
  }

  lemma TriangleZ()
    ensures Physics.IsLeast(TRIANGLE, 2, 0.0) && Physics.IsGreatest(TRIANGLE, 2, 0.0)
  {
    assert TRIANGLE[0].At(2) == 0.0;
  }

  /** The triangle spans `[-0.5, 0.5]` on x and y and is flat on z. */
  lemma TriangleExtremes()
    ensures Physics.FloatRange(TRIANGLE)
    ensures Physics.IsLeast(TRIANGLE, 0, -0.5) && Physics.IsGreatest(TRIANGLE, 0, 0.5)
    ensures Physics.IsLeast(TRIANGLE, 1, -0.5) && Physics.IsGreatest(TRIANGLE, 1, 0.5)
    ensures Physics.IsLeast(TRIANGLE, 2, 0.0) && Physics.IsGreatest(TRIANGLE, 2, 0.0)
  {
    TriangleX();
    TriangleY();
    TriangleZ();
  }

  lemma SquareX()
    ensures Physics.IsLeast(SQUARE, 0, -0.5) && Physics.IsGreatest(SQUARE, 0, 0.5)
  {
    assert SQUARE[0].At(0) == -0.5 && SQUARE[1].At(0) == 0.5;
  }

  lemma SquareY()
    ensures Physics.IsLeast(SQUARE, 1, -0.5) && Physics.IsGreatest(SQUARE, 1, 0.5)
  {
    assert SQUARE[0].At(1) == -0.5 && SQUARE[2].At(1) == 0.5;
  }

  lemma SquareZ()
    ensures Physics.IsLeast(SQUARE, 2, 0.0) && Physics.IsGreatest(SQUARE, 2, 0.0)
  {
    assert SQUARE[0].At(2) == 0.0;
  }

  /** The square spans `[-0.5, 0.5]` on x and y and is flat on z. */
  lemma SquareExtremes()
    ensures Physics.FloatRange(SQUARE)
    ensures Physics.IsLeast(SQUARE, 0, -0.5) && Physics.IsGreatest(SQUARE, 0, 0.5)
    ensures Physics.IsLeast(SQUARE, 1, -0.5) && Physics.IsGreatest(SQUARE, 1, 0.5)
    ensures Physics.IsLeast(SQUARE, 2, 0.0) && Physics.IsGreatest(SQUARE, 2, 0.0)
  {
    SquareX();
    SquareY();
    SquareZ();
  }

  /** The flat triangle (every z is 0) gets a depth of `FLT_MIN / 2` as
      written, where its true half-depth is 0. */
  lemma TriangleDepthAsWritten()
    ensures AsWrittenHalfSize(TRIANGLE, 1.0, 1.0).z == FLT_MIN / 2.0
    ensures HalfSize(TRIANGLE, 1.0, 1.0).z == 0.0
  {
    var t := TRIANGLE;
    TriangleExtremes();
    AsWrittenHalfSizeClamps(t, 1.0, 1.0, -0.5, 0.5, -0.5, 0.5, 0.0, 0.0);
    HalfSizeIsExtent(t, 1.0, 1.0, -0.5, 0.5, -0.5, 0.5, 0.0, 0.0);
  }

  /** `aabbNew(vertices, n, body)` of this revision with `n == |vertices|`,
      as written: the running maximum starts at `FLT_MIN`. */
  method AabbNew(vertices: seq<Vec3>, body: Body)
    modifies body
    ensures body.State() == old(body.State()).(halfsize := AsWrittenHalfSize(vertices, body.width, body.height))
  {
    var min := Vec3(Physics.FLT_MAX, Physics.FLT_MAX, Physics.FLT_MAX);
    var max := Vec3(FLT_MIN, FLT_MIN, FLT_MIN);
    for i := 0 to |vertices|
      invariant unchanged(body)
      invariant min == Vec3(Physics.LowOf(vertices[..i], 0, Physics.FLT_MAX),
                            Physics.LowOf(vertices[..i], 1, Physics.FLT_MAX),
                            Physics.LowOf(vertices[..i], 2, Physics.FLT_MAX))
      invariant max == Vec3(Physics.HighOf(vertices[..i], 0, FLT_MIN),
                            Physics.HighOf(vertices[..i], 1, FLT_MIN),
                            Physics.HighOf(vertices[..i], 2, FLT_MIN))
    {
      Physics.ScanStep(vertices, i);
      min := Vec3(Min(min.x, vertices[i].x), Min(min.y, vertices[i].y), Min(min.z, vertices[i].z));
      max := Vec3(Max(max.x, vertices[i].x), Max(max.y, vertices[i].y), Max(max.z, vertices[i].z));
    }
    assert vertices[..|vertices|] == vertices;
    body.halfsize := Vec3(Physics.HalfScaled(max.x - min.x, body.width),
                          Physics.HalfScaled(max.y - min.y, body.height),
                          (max.z - min.z) / 2.0);
  }

  // ---------------------------------------------------------------------
  // aabbIntersectRay (slab method, unclamped)
  // ---------------------------------------------------------------------

  /** The `Hit` this revision fills. `time == None` is `-INFINITY` and
      `pos == None` a position that is not a number (`0 * -INFINITY`); both
      arise only when every magnitude is zero. */
  datatype LegacyHit = LegacyHit(isHit: bool, time: Option<real>, pos: Option<Vec3>, normal: Vec3)

  /** `Hit hit = {0}` */
  const Miss: LegacyHit := LegacyHit(false, Some(0.0), Some(Zero), Zero)

  /** Parameter at which the ray enters slab `i`. */
  function Near(pos: Vec3, mag: Vec3, b: Box, i: nat): real
    requires i < 3 && mag.At(i) != 0.0
  {
    Min((Physics.Lo(b, i) - pos.At(i)) / mag.At(i), (Physics.Hi(b, i) - pos.At(i)) / mag.At(i))
  }

  /** Parameter at which the ray leaves slab `i`. */
  function Far(pos: Vec3, mag: Vec3, b: Box, i: nat): real
    requires i < 3 && mag.At(i) != 0.0
  {
    Max((Physics.Lo(b, i) - pos.At(i)) / mag.At(i), (Physics.Hi(b, i) - pos.At(i)) / mag.At(i))
  }

  /** `last_entry` over the first `k` axes; `None` is `-INFINITY`. */
  function LastEntry(pos: Vec3, mag: Vec3, b: Box, k: nat): Option<real>
    requires k <= 3
  {
    if k == 0 then None
    else if mag.At(k - 1) == 0.0 then LastEntry(pos, mag, b, k - 1)
    else match LastEntry(pos, mag, b, k - 1)
      case None => Some(Near(pos, mag, b, k - 1))
      case Some(e) => Some(Max(e, Near(pos, mag, b, k - 1)))
  }

  /** `first_exit` over the first `k` axes; `None` is `INFINITY`. */
  function FirstExit(pos: Vec3, mag: Vec3, b: Box, k: nat): Option<real>
    requires k <= 3
  {
    if k == 0 then None
    else if mag.At(k - 1) == 0.0 then FirstExit(pos, mag, b, k - 1)
    else match FirstExit(pos, mag, b, k - 1)
      case None => Some(Far(pos, mag, b, k - 1))
      case Some(x) => Some(Min(x, Far(pos, mag, b, k - 1)))
  }

  /** On or outside a face of slab `i`: here a face counts as outside. */
  predicate OnOrOutside(pos: Vec3, b: Box, i: nat)
    requires i < 3
  {
    pos.At(i) <= Physics.Lo(b, i) || pos.At(i) >= Physics.Hi(b, i)
  }

  /** One of the first `k` axes has zero magnitude and the origin is on or
      outside its slab. */
  predicate Stopped(pos: Vec3, mag: Vec3, b: Box, k: nat)
    requires k <= 3
  {
    k > 0 && (Stopped(pos, mag, b, k - 1) || (mag.At(k - 1) == 0.0 && OnOrOutside(pos, b, k - 1)))
  }

  /** `last_entry <= first_exit && first_exit >= 0 && last_entry <= 1`
      with the infinities of `None`. */
  predicate Accepts(entry: Option<real>, exit: Option<real>) {
    && (entry.None? || exit.None? || entry.value <= exit.value)
    && (exit.None? || exit.value >= 0.0)
    && (entry.None? || entry.value <= 1.0)
  }

  /** The normal: a signed unit on x when x is the shallower penetration,
      otherwise on y; never on z, whatever the z penetration. */
  function LegacyNormal(p: Vec3, b: Box): (n: Vec3)
    ensures Physics.Penetration(p, b, 0) < Physics.Penetration(p, b, 1) ==> n == Unit(0, Sign(p.x - b.pos.x))
    ensures Physics.Penetration(p, b, 1) <= Physics.Penetration(p, b, 0) ==> n == Unit(1, Sign(p.y - b.pos.y))
    ensures n.z == 0.0 && AtMostOneAxis(n)
    ensures IsSignValue(n.x) && IsSignValue(n.y)
    ensures n.x != 0.0 ==>
      n.x == Sign(p.x - b.pos.x) && b.halfsize.x - Abs(p.x - b.pos.x) < b.halfsize.y - Abs(p.y - b.pos.y)
    ensures n.y != 0.0 ==>
      n.y == Sign(p.y - b.pos.y) && b.halfsize.y - Abs(p.y - b.pos.y) <= b.halfsize.x - Abs(p.x - b.pos.x)
  {
    var dx := p.x - b.pos.x;
    var dy := p.y - b.pos.y;
    var px := b.halfsize.x - Abs(dx);
    var py := b.halfsize.y - Abs(dy);
    if px < py then Unit(0, Sign(dx)) else Unit(1, Sign(dy))
  }

  /** Reference definition of the older ray test. */
  function LegacyRayCast(pos: Vec3, mag: Vec3, b: Box): LegacyHit {
    if Stopped(pos, mag, b, 3) then Miss
    else
      var entry := LastEntry(pos, mag, b, 3);
      if !Accepts(entry, FirstExit(pos, mag, b, 3)) then Miss
      else match entry
        case None => LegacyHit(true, None, None, Zero)
        case Some(t) =>
          var p := pos.Add(mag.Scale(t));
          LegacyHit(true, Some(t), Some(p), LegacyNormal(p, b))
  }

  lemma {:induction false} StoppedMonotone(pos: Vec3, mag: Vec3, b: Box, k: nat)
    requires k <= 3 && Stopped(pos, mag, b, k)
    ensures Stopped(pos, mag, b, 3)
    decreases 3 - k
  {
    if k < 3 {
      StoppedMonotone(pos, mag, b, k + 1);
    }
  }

  /** The contact point and normal of a hit at the finite time `t`. */
  method LegacyHitAt(pos: Vec3, magnitude: Vec3, body: Box, t: real) returns (hit: LegacyHit)
    ensures hit == LegacyHit(true, Some(t), Some(pos.Add(magnitude.Scale(t))),
                             LegacyNormal(pos.Add(magnitude.Scale(t)), body))
  {
    var p := pos.Add(magnitude.Scale(t));
    var dx := p.x - body.pos.x;
    var dy := p.y - body.pos.y;
    var px := body.halfsize.x - Abs(dx);
    var py := body.halfsize.y - Abs(dy);
    var normal := Zero;
    if px < py {
      normal := normal.(x := Sign(dx));
    } else {
      normal := normal.(y := Sign(dy));
    }
    hit := LegacyHit(true, Some(t), Some(p), normal);
  }

  /** `aabbIntersectRay(pos, magnitude, body)` of src/thing.c. */
  method LegacyAabbIntersectRay(pos: Vec3, magnitude: Vec3, body: Box) returns (hit: LegacyHit)
    ensures hit == LegacyRayCast(pos, magnitude, body)
  {
    hit := Miss;
    var bounds := AabbMinMax(body);
    var lastEntry: Option<real> := None;
    var firstExit: Option<real> := None;
    for i := 0 to 3
      invariant lastEntry == LastEntry(pos, magnitude, body, i)
      invariant firstExit == FirstExit(pos, magnitude, body, i)
      invariant !Stopped(pos, magnitude, body, i)
    {
      if magnitude.At(i) != 0.0 {
        var t1 := (bounds.min.At(i) - pos.At(i)) / magnitude.At(i);
        var t2 := (bounds.max.At(i) - pos.At(i)) / magnitude.At(i);
        lastEntry := Some(if lastEntry.None? then Min(t1, t2) else Max(lastEntry.value, Min(t1, t2)));
        firstExit := Some(if firstExit.None? then Max(t1, t2) else Min(firstExit.value, Max(t1, t2)));
      } else if pos.At(i) <= bounds.min.At(i) || pos.At(i) >= bounds.max.At(i) {
        StoppedMonotone(pos, magnitude, body, i + 1);
        return;
      }
    }
    if Accepts(lastEntry, firstExit) {
      if lastEntry.None? {
        hit := LegacyHit(true, None, None, Zero);
      } else {
        hit := LegacyHitAt(pos, magnitude, body, lastEntry.value);
      }
    }
  }

  // ---------------------------------------------------------------------
  // Properties of the older ray test
  // ---------------------------------------------------------------------

  /** A zero-magnitude axis whose slab does not strictly contain the origin
      rules out a hit: touching a face counts as outside. */
  lemma ZeroAxisBoundaryMisses(pos: Vec3, mag: Vec3, b: Box, i: nat)
    requires i < 3 && mag.At(i) == 0.0 && OnOrOutside(pos, b, i)
    ensures LegacyRayCast(pos, mag, b) == Miss
  {
    StoppedMonotone(pos, mag, b, i + 1);
  }

  /** Over the first `k` axes: the entry is `-INFINITY` exactly when every
      magnitude is zero, and then so is the exit `INFINITY`; otherwise the
      entry is at least every moving axis's near time and the exit at most
      every moving axis's far time. */
  lemma {:induction false} EntryExitBounds(pos: Vec3, mag: Vec3, b: Box, k: nat)
    requires k <= 3
    ensures LastEntry(pos, mag, b, k).None? <==> forall i | 0 <= i < k :: mag.At(i) == 0.0
    ensures LastEntry(pos, mag, b, k).None? <==> FirstExit(pos, mag, b, k).None?
    ensures forall i | 0 <= i < k && mag.At(i) != 0.0 ::
      && LastEntry(pos, mag, b, k).Some? && Near(pos, mag, b, i) <= LastEntry(pos, mag, b, k).value
      && FirstExit(pos, mag, b, k).Some? && FirstExit(pos, mag, b, k).value <= Far(pos, mag, b, i)
  {
    if k > 0 {
      EntryExitBounds(pos, mag, b, k - 1);
    }
  }

  /** The coordinate `p + m * t` reached at time `t`. */
  function Along(p: real, m: real, t: real): real {
    p + m * t
  }

  /** A point reached at a time between the near and far times of a moving
      axis lies within that axis's interval. */
  lemma AxisPointInside(p: real, m: real, lo: real, hi: real, t: real)
    requires m != 0.0 && lo <= hi
    requires Min((lo - p) / m, (hi - p) / m) <= t <= Max((lo - p) / m, (hi - p) / m)
    ensures lo <= Along(p, m, t) <= hi
  {
    var a := lo - p;
    var c := hi - p;
    assert Along(p, m, t) == p + t * m;
    assert a / m * m == a && c / m * m == c;
    if m > 0.0 {
      assert a / m <= c / m;
      assert a / m * m <= t * m <= c / m * m;
    } else {
      assert c / m <= a / m;
      assert c / m * m >= t * m >= a / m * m;
    }
  }

  /** With every magnitude zero and the origin strictly inside, the hit
      has the infinite time, no position and a zero normal. */
  lemma StillHitHasNoTime(pos: Vec3, mag: Vec3, b: Box)
    requires mag == Zero
    ensures var h := LegacyRayCast(pos, mag, b);
      h.isHit ==> h.time.None? && h.pos.None? && h.normal == Zero
  {
    EntryExitBounds(pos, mag, b, 3);
  }

  /** Some axis moves when the magnitude is not the zero vector. */
  lemma SomeAxisMoves(mag: Vec3)
    requires mag != Zero
    ensures !(forall i | 0 <= i < 3 :: mag.At(i) == 0.0)
  {
    if mag.x != 0.0 {
      assert mag.At(0) != 0.0;
    } else if mag.y != 0.0 {
      assert mag.At(1) != 0.0;
    } else {
      assert mag.At(2) != 0.0;
    }
  }

  /** With some magnitude non-zero, a hit has a finite time, its position
      is `pos + magnitude * time`, and its normal is on x or y only. */
  lemma MovingHitShape(pos: Vec3, mag: Vec3, b: Box)
    requires mag != Zero
    ensures var h := LegacyRayCast(pos, mag, b);
      h.isHit ==>
        && h.time.Some? && h.pos == Some(pos.Add(mag.Scale(h.time.value)))
        && h.normal.z == 0.0 && AtMostOneAxis(h.normal)
  {
    EntryExitBounds(pos, mag, b, 3);
    SomeAxisMoves(mag);
  }

  /** No prefix of the axes stops a test that the three axes do not stop. */
  lemma {:induction false} NotStoppedPrefix(pos: Vec3, mag: Vec3, b: Box, k: nat)
    requires k <= 3 && !Stopped(pos, mag, b, 3)
    ensures !Stopped(pos, mag, b, k)
    decreases 3 - k
  {
    if k < 3 {
      NotStoppedPrefix(pos, mag, b, k + 1);
    }
  }

  /** On a moving axis, the point reached at an accepted finite entry
      time lies within the box's interval. */
  lemma MovingAxisInside(pos: Vec3, mag: Vec3, b: Box, i: nat, t: real)
    requires i < 3 && NonNegative(b.halfsize) && mag.At(i) != 0.0
    requires LastEntry(pos, mag, b, 3) == Some(t)
    requires Accepts(Some(t), FirstExit(pos, mag, b, 3))
    ensures Physics.Lo(b, i) <= Along(pos.At(i), mag.At(i), t) <= Physics.Hi(b, i)
  {
    EntryExitBounds(pos, mag, b, 3);
    AxisPointInside(pos.At(i), mag.At(i), Physics.Lo(b, i), Physics.Hi(b, i), t);
  }

  /** On a still axis, an unstopped test has the origin inside the slab. */
  lemma StillAxisInside(pos: Vec3, mag: Vec3, b: Box, i: nat, t: real)
    requires i < 3 && mag.At(i) == 0.0 && !Stopped(pos, mag, b, 3)
    ensures Physics.Lo(b, i) < Along(pos.At(i), mag.At(i), t) < Physics.Hi(b, i)
  {
    NotStoppedPrefix(pos, mag, b, i + 1);
  }

  lemma AcceptedAxisInside(pos: Vec3, mag: Vec3, b: Box, i: nat, t: real)
    requires i < 3 && NonNegative(b.halfsize) && !Stopped(pos, mag, b, 3)
    requires LastEntry(pos, mag, b, 3) == Some(t)
    requires Accepts(Some(t), FirstExit(pos, mag, b, 3))
    ensures Physics.Lo(b, i) <= Along(pos.At(i), mag.At(i), t) <= Physics.Hi(b, i)
  {
    if mag.At(i) != 0.0 {
      MovingAxisInside(pos, mag, b, i, t);
    } else {
      StillAxisInside(pos, mag, b, i, t);
    }
  }

  /** A hit of a moving ray on a box with non-negative half-size lies on
      the box. */
  lemma MovingHitOnBox(pos: Vec3, mag: Vec3, b: Box)
    requires NonNegative(b.halfsize) && mag != Zero
    ensures var h := LegacyRayCast(pos, mag, b);
      h.isHit ==> h.pos.Some? && InBox(b, h.pos.value)
  {
    var h := LegacyRayCast(pos, mag, b);
    MovingHitShape(pos, mag, b);
    if h.isHit {
      var t := h.time.value;
      AcceptedAxisInside(pos, mag, b, 0, t);
      AcceptedAxisInside(pos, mag, b, 1, t);
      AcceptedAxisInside(pos, mag, b, 2, t);
      AlongInBox(pos, mag, b, t);
    }
  }

  /** The point reached at time `t` is in the box when each of its
      coordinates is within the box's interval. */
  lemma AlongInBox(pos: Vec3, mag: Vec3, b: Box, t: real)
    requires forall i | 0 <= i < 3 :: Physics.Lo(b, i) <= Along(pos.At(i), mag.At(i), t) <= Physics.Hi(b, i)
    ensures InBox(b, pos.Add(mag.Scale(t)))
  {
    assert Physics.Lo(b, 0) <= Along(pos.At(0), mag.At(0), t) <= Physics.Hi(b, 0);
    assert Physics.Lo(b, 1) <= Along(pos.At(1), mag.At(1), t) <= Physics.Hi(b, 1);
    assert Physics.Lo(b, 2) <= Along(pos.At(2), mag.At(2), t) <= Physics.Hi(b, 2);
  }

  /** The origin is strictly inside slab `i`. */
  predicate InsideSlab(pos: Vec3, b: Box, i: nat)
    requires i < 3
  {
    Physics.Lo(b, i) < pos.At(i) < Physics.Hi(b, i)
  }

  /** An origin strictly inside the slab of a moving axis lies strictly
      between that axis's entry and exit. */
  lemma NearFarStraddle(pos: Vec3, mag: Vec3, b: Box, i: nat)
    requires i < 3 && mag.At(i) != 0.0 && InsideSlab(pos, b, i)
    ensures Near(pos, mag, b, i) < 0.0 < Far(pos, mag, b, i)
  {
    var m := mag.At(i);
    var a := Physics.Lo(b, i) - pos.At(i);
    var c := Physics.Hi(b, i) - pos.At(i);
    assert a < 0.0 < c;
    if m > 0.0 {
      assert a / m < 0.0;
      assert c / m > 0.0;
    } else {
      assert a / m > 0.0;
      assert c / m < 0.0;
    }
  }

  lemma {:induction false} InsideEntryExit(pos: Vec3, mag: Vec3, b: Box, k: nat)
    requires k <= 3
    requires InsideSlab(pos, b, 0) && InsideSlab(pos, b, 1) && InsideSlab(pos, b, 2)
    ensures LastEntry(pos, mag, b, k).Some? ==> LastEntry(pos, mag, b, k).value < 0.0
    ensures FirstExit(pos, mag, b, k).Some? ==> FirstExit(pos, mag, b, k).value > 0.0
    ensures !Stopped(pos, mag, b, k)
  {
    if k > 0 {
      InsideEntryExit(pos, mag, b, k - 1);
      if mag.At(k - 1) != 0.0 {
        NearFarStraddle(pos, mag, b, k - 1);
      }
    }
  }

  /** Unlike the newer test, which reports time 0, this one reports an
      origin strictly inside the box as a hit at a negative time, on the
      face behind the origin, whenever it moves at all. */
  lemma InsideHitsBehindOrigin(pos: Vec3, mag: Vec3, b: Box)
    requires InsideSlab(pos, b, 0) && InsideSlab(pos, b, 1) && InsideSlab(pos, b, 2)
    requires mag != Zero
    ensures LegacyRayCast(pos, mag, b).isHit
    ensures LegacyRayCast(pos, mag, b).time.Some? && LegacyRayCast(pos, mag, b).time.value < 0.0
  {
    InsideEntryExit(pos, mag, b, 3);
    EntryExitBounds(pos, mag, b, 3);
    SomeAxisMoves(mag);
  }
}
