/** Shared value types: optional values, the C `Result` status, and the
    three-component vectors (`vec3`) the engine computes with. Coordinates
    are modelled as `real`, not IEEE floats. */
module Common {

  datatype Option<T> = None | Some(value: T)

  /** The `Result` enumeration of the C code: `Ok` or `Err`. */
  datatype Status = Ok | Err

  /** A `vec3`: component 0 is x, 1 is y, 2 is z. */
  datatype Vec3 = Vec3(x: real, y: real, z: real) {

    function At(i: nat): real
      requires i < 3
    {
      if i == 0 then x else if i == 1 then y else z
    }

    function Add(o: Vec3): Vec3 {
      Vec3(x + o.x, y + o.y, z + o.z)
    }

    function Sub(o: Vec3): Vec3 {
      Vec3(x - o.x, y - o.y, z - o.z)
    }

    function Scale(s: real): Vec3 {
      Vec3(x * s, y * s, z * s)
    }
  }

  const Zero: Vec3 := Vec3(0.0, 0.0, 0.0)

  /** The vector holding `s` on axis `i` and 0 on the other two, as a
      normal written through `normal[i] = s` into a zeroed `Hit`. */
  function Unit(i: nat, s: real): Vec3
    requires i < 3
  {
    if i == 0 then Vec3(s, 0.0, 0.0) else if i == 1 then Vec3(0.0, s, 0.0) else Vec3(0.0, 0.0, s)
  }

  /** `fminf`, `MIN` */
  function Min(a: real, b: real): real {
    if a <= b then a else b
  }

  /** `fmaxf`, `MAX` */
  function Max(a: real, b: real): real {
    if a >= b then a else b
  }

  /** `fabsf` */
  function Abs(a: real): real {
    if a < 0.0 then -a else a
  }

  /** `(d > 0) - (d < 0)` */
  function Sign(d: real): real {
    if d > 0.0 then 1.0 else if d < 0.0 then -1.0 else 0.0
  }

  predicate IsSignValue(r: real) {
    r == -1.0 || r == 0.0 || r == 1.0
  }

  /** Every component is at least zero. */
  predicate NonNegative(v: Vec3) {
    v.x >= 0.0 && v.y >= 0.0 && v.z >= 0.0
  }

  /** At most one component of `v` differs from zero. */
  predicate AtMostOneAxis(v: Vec3) {
    (v.x != 0.0 ==> v.y == 0.0 && v.z == 0.0) &&
    (v.y != 0.0 ==> v.x == 0.0 && v.z == 0.0) &&
    (v.z != 0.0 ==> v.x == 0.0 && v.y == 0.0)
  }
}
