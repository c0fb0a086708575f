/** The physical state of one entity. The struct declared in src/thing.h is
    stale; this class carries the fields the collision and physics code
    actually read and write. */
module Bodies {
  import opened Common
  import opened Aabb

  /** A value copy of every field of a `Body`. */
  datatype BodyState = BodyState(
    pos: Vec3, rot: Vec3, halfsize: Vec3, width: real, height: real,
    velocity: Vec3, isDynamic: bool)
  {
    function Box(): Box {
      Aabb.Box(pos, halfsize)
    }
  }

  class Body {
    var pos: Vec3
    var rot: Vec3
    var halfsize: Vec3
    var width: real
    var height: real
    var velocity: Vec3
    var isDynamic: bool

    constructor (pos: Vec3, rot: Vec3, halfsize: Vec3, width: real, height: real,
                 velocity: Vec3, isDynamic: bool)
      ensures State() == BodyState(pos, rot, halfsize, width, height, velocity, isDynamic)
    {
      this.pos, this.rot, this.halfsize := pos, rot, halfsize;
      this.width, this.height := width, height;
      this.velocity, this.isDynamic := velocity, isDynamic;
    }

    function State(): BodyState
      reads this
    {
      BodyState(pos, rot, halfsize, width, height, velocity, isDynamic)
    }

    function Box(): Box
      reads this
    {
      Aabb.Box(pos, halfsize)
    }
  }

  /** The value of every body, in order. */
  function States(bodies: seq<Body>): (s: seq<BodyState>)
    reads set b | b in bodies
    ensures |s| == |bodies|
    ensures forall j | 0 <= j < |bodies| :: s[j] == bodies[j].State()
  {
    if bodies == [] then []
    else States(bodies[..|bodies| - 1]) + [bodies[|bodies| - 1].State()]
  }

  /** No body occurs twice: distinct registry entries own distinct bodies. */
  predicate Distinct(bodies: seq<Body>) {
    forall i, j | 0 <= i < j < |bodies| :: bodies[i] != bodies[j]
  }
}
