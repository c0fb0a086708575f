/** The thing manager of src/thing.c: the global table from 16-bit ids to
    things, with its id counter and its initialisation flag, and the type
    dispatch that builds a thing from a body. */
module ThingManager {
  import opened Common
  import opened Bodies
  import Legacy

  /** Ids are `uint16_t`: there are 65536 of them. */
  const ID_SPACE: int := 65536

  /** The thing kinds of src/thing.h; `THING_CUBE` is used by the loader but
      not declared in that header, so its value here is an assumption. */
  const THING_TRIANGLE: int := 0
  const THING_SQUARE: int := 1
  const THING_BACKPACK: int := 2
  const THING_CUBE: int := 3

  /** A registered entity: its body (`loc`), kind (`type`), an opaque
      handle for its `self` data, and its id. */
  class Thing {
    var loc: Body
    var kind: int
    var self: int
    var id: int

    constructor (loc: Body, kind: int, self: int)
      ensures this.loc == loc && this.kind == kind && this.self == self && id == 0
    {
      this.loc, this.kind, this.self := loc, kind, self;
      id := 0;
    }
  }

  /** The ids `0 .. n - 1`. */
  function Ids(n: nat): (r: set<int>)
    ensures forall i :: i in r <==> 0 <= i < n
    ensures |r| == n
  {
    if n == 0 then {} else Ids(n - 1) + {n - 1}
  }

  /** While fewer than 65536 ids are live, some id in range is free. */
  lemma FreeIdExists(keys: set<int>)
    requires forall k | k in keys :: 0 <= k < ID_SPACE
    requires |keys| < ID_SPACE
    ensures exists f :: 0 <= f < ID_SPACE && f !in keys
  {
    var range := Ids(ID_SPACE);
    assert |range - keys| > 0;
    var f :| f in range - keys;
  }

  /** Advancing the probe by one brings it one step closer, modulo 65536,
      to a free id it has not reached. */
  lemma ProbeCloser(free: int, probe: int)
    requires 0 <= free < ID_SPACE && 0 <= probe < ID_SPACE && probe != free
    ensures 0 < (free - probe) % ID_SPACE
    ensures (free - (probe + 1) % ID_SPACE) % ID_SPACE == (free - probe) % ID_SPACE - 1
  {
    if probe + 1 < ID_SPACE {
      assert (probe + 1) % ID_SPACE == probe + 1;
    } else {
      assert (probe + 1) % ID_SPACE == 0;
    }
    if probe < free {
      assert (free - probe) % ID_SPACE == free - probe;
    } else {
      assert (free - probe) % ID_SPACE == free - probe + ID_SPACE;
    }
  }

  /** The counter truncated to 16 bits is one past its predecessor's
      truncation, modulo 65536. */
  lemma NextProbe(c: int)
    ensures c % ID_SPACE == ((c - 1) % ID_SPACE + 1) % ID_SPACE
  {
    var q, r := (c - 1) / ID_SPACE, (c - 1) % ID_SPACE;
    assert c == q * ID_SPACE + (r + 1);
    if r + 1 < ID_SPACE {
      assert c % ID_SPACE == r + 1;
    } else {
      assert c == (q + 1) * ID_SPACE;
    }
  }

  /** The manager `THINGS`. */
  class Things {
    var things: map<int, Thing>
    var curid: int
    var init: bool

    /** Every key is a 16-bit id and the counter never went below zero. */
    ghost predicate Valid()
      reads this
    {
      curid >= 0 && forall k | k in things :: 0 <= k < ID_SPACE
    }

    /** `Things THINGS = {0}`: not yet initialised. */
    constructor ()
      ensures things == map[] && curid == 0 && !init
      ensures Valid()
    {
      things, curid, init := map[], 0, false;
    }

    /** `thingsInit`: a fresh empty table, the counter at zero. */
    method Init()
      modifies this
      ensures things == map[] && curid == 0 && init
      ensures Valid()
    {
      things := map[];
      curid := 0;
      init := true;
    }

    /** `thingAdd(t)`: without initialisation, `Err` and nothing changes.
        Otherwise the counter is advanced at least once, each probe takes
        the old counter truncated to 16 bits, the first free probe becomes
        `t`'s id, and `t` is added under it. */
    method Add(t: Thing) returns (r: Status)
      requires Valid()
      requires init ==> |things| < ID_SPACE
      modifies this, t
      ensures Valid()
      ensures !old(init) ==> r == Err && unchanged(this) && unchanged(t)
      ensures old(init) ==> r == Ok && init
      ensures old(init) ==> t.id !in old(things) && things == old(things)[t.id := t]
      ensures old(init) ==> curid > old(curid) && t.id == (curid - 1) % ID_SPACE
      ensures old(init) ==> forall c | old(curid) <= c < curid - 1 :: c % ID_SPACE in old(things)
      ensures t.loc == old(t.loc) && t.kind == old(t.kind) && t.self == old(t.self)
    {
      if !init {
        return Err;
      }
      FreeIdExists(things.Keys);
      ghost var free :| 0 <= free < ID_SPACE && free !in things;
      t.id := curid % ID_SPACE;
      curid := curid + 1;
      while t.id in things
        invariant curid > old(curid) && t.id == (curid - 1) % ID_SPACE
        invariant forall c | old(curid) <= c < curid - 1 :: c % ID_SPACE in things
        invariant things == old(things) && init == old(init) && Valid()
        invariant t.loc == old(t.loc) && t.kind == old(t.kind) && t.self == old(t.self)
        decreases (free - t.id) % ID_SPACE
      {
        ProbeCloser(free, t.id);
        NextProbe(curid);
        t.id := curid % ID_SPACE;
        curid := curid + 1;
      }
      things := things[t.id := t];
      return Ok;
    }

    /** `thingDelete(id)`: `Err` and nothing changes without initialisation
        or when `id` is absent; otherwise exactly that entry is removed. */
    method Delete(id: int) returns (r: Status)
      requires Valid()
      modifies this
      ensures Valid()
      ensures !old(init) || id !in old(things) ==> r == Err && unchanged(this)
      ensures old(init) && id in old(things) ==>
        r == Ok && things == old(things) - {id} && curid == old(curid) && init
    {
      if !init {
        return Err;
      }
      if id !in things {
        return Err;
      }
      things := things - {id};
      return Ok;
    }
  }

  /** The flat triangle's intended box: half its unit width and height,
      scaled, and no depth. */
  lemma TriangleHalfSize(width: real, height: real)
    ensures Legacy.HalfSize(Legacy.TRIANGLE, width, height) ==
      Vec3(Legacy.Physics.HalfScaled(1.0, width), Legacy.Physics.HalfScaled(1.0, height), 0.0)
  {
    var t := Legacy.TRIANGLE;
    Legacy.TriangleExtremes();
    Legacy.HalfSizeIsExtent(t, width, height, -0.5, 0.5, -0.5, 0.5, 0.0, 0.0);
  }

  /** The flat unit square's intended box: the same as the triangle's. */
  lemma SquareHalfSize(width: real, height: real)
    ensures Legacy.HalfSize(Legacy.SQUARE, width, height) ==
      Vec3(Legacy.Physics.HalfScaled(1.0, width), Legacy.Physics.HalfScaled(1.0, height), 0.0)
  {
    var s := Legacy.SQUARE;
    Legacy.SquareExtremes();
    Legacy.HalfSizeIsExtent(s, width, height, -0.5, 0.5, -0.5, 0.5, 0.0, 0.0);
  }

  /** The box the loader actually stores for the triangle: the intended
      width and height, but a depth of `FLT_MIN / 2`. */
  lemma TriangleHalfSizeAsWritten(width: real, height: real)
    ensures Legacy.AsWrittenHalfSize(Legacy.TRIANGLE, width, height) ==
      Vec3(Legacy.Physics.HalfScaled(1.0, width), Legacy.Physics.HalfScaled(1.0, height), Legacy.FLT_MIN / 2.0)
  {
    var t := Legacy.TRIANGLE;
    Legacy.TriangleExtremes();
    Legacy.AsWrittenHalfSizeClamps(t, width, height, -0.5, 0.5, -0.5, 0.5, 0.0, 0.0);
  }

  /** The box the loader actually stores for the square: the same as for
      the triangle. */
  lemma SquareHalfSizeAsWritten(width: real, height: real)
    ensures Legacy.AsWrittenHalfSize(Legacy.SQUARE, width, height) ==
      Vec3(Legacy.Physics.HalfScaled(1.0, width), Legacy.Physics.HalfScaled(1.0, height), Legacy.FLT_MIN / 2.0)
  {
    var s := Legacy.SQUARE;
    Legacy.SquareExtremes();
    Legacy.AsWrittenHalfSizeClamps(s, width, height, -0.5, 0.5, -0.5, 0.5, 0.0, 0.0);
  }

  predicate KnownKind(kind: int) {
    kind == THING_TRIANGLE || kind == THING_SQUARE || kind == THING_BACKPACK || kind == THING_CUBE
  }

  /** `thingLoadFromData(data, type, loc)`: an unknown kind gives `null`
      and leaves the body alone; a known kind gives a new thing holding
      `data`, the kind and a copy of the body, after triangles and squares
      have had their half-size computed from their vertices. */
  method ThingLoadFromData(data: int, kind: int, loc: Body) returns (dest: Thing?)
    modifies loc
    ensures !KnownKind(kind) ==> dest == null && unchanged(loc)
    ensures kind == THING_TRIANGLE ==>
      loc.State() == old(loc.State()).(halfsize := Legacy.AsWrittenHalfSize(Legacy.TRIANGLE, loc.width, loc.height))
    ensures kind == THING_SQUARE ==>
      loc.State() == old(loc.State()).(halfsize := Legacy.AsWrittenHalfSize(Legacy.SQUARE, loc.width, loc.height))
    ensures kind == THING_BACKPACK || kind == THING_CUBE ==> unchanged(loc)
    ensures KnownKind(kind) ==>
      && dest != null && fresh(dest) && fresh(dest.loc)
      && dest.kind == kind && dest.self == data && dest.loc.State() == loc.State()
  {
    if kind == THING_TRIANGLE {
      Legacy.AabbNew(Legacy.TRIANGLE, loc);
    } else if kind == THING_CUBE {
    } else if kind == THING_SQUARE {
      Legacy.AabbNew(Legacy.SQUARE, loc);
    } else if kind == THING_BACKPACK {
      // the model is assumed to be loaded already
    } else {
      return null;
    }
    var copy := new Body(loc.pos, loc.rot, loc.halfsize, loc.width, loc.height, loc.velocity, loc.isDynamic);
    dest := new Thing(copy, kind, data);
  }
}
