/** The mouse-look part of the perspective camera `pCam` of src/main.c:
    `pCamPan` turns a cursor position into yaw and pitch offsets against
    the previous position and keeps the pitch within 89 degrees of level.
    Recomputing the view (`pCamUpdateView`) is trigonometry on the new
    angles and is recorded only as a count of recomputations. */
module Camera {

  /** The pitch limit, in degrees. */
  const PITCH_LIMIT: real := 89.0

  /** The state `pCamPan` reads and writes. */
  datatype PanState = PanState(
    pitch: real, yaw: real, firstInt: bool, lastx: real, lasty: real, sensitivity: real)

  /** `pCamInit`: level, facing yaw 0, no cursor seen yet, sensitivity 0.1. */
  const INITIAL: PanState := PanState(0.0, 0.0, true, 0.0, 0.0, 0.1)

  /** The two clamps applied to the pitch, upper bound first. */
  function ClampPitch(p: real): (r: real)
    ensures -PITCH_LIMIT <= r <= PITCH_LIMIT
    ensures -PITCH_LIMIT <= p <= PITCH_LIMIT ==> r == p
    ensures p > PITCH_LIMIT ==> r == PITCH_LIMIT
    ensures p < -PITCH_LIMIT ==> r == -PITCH_LIMIT
  {
    var upper := if p > PITCH_LIMIT then PITCH_LIMIT else p;
    if upper < -PITCH_LIMIT then -PITCH_LIMIT else upper
  }

  /** The turn for a cursor movement from `last` to `now`, scaled by the
      sensitivity. */
  function Offset(now: real, last: real, sensitivity: real): real {
    (now - last) * sensitivity
  }

  /** No movement, no turn. */
  lemma OffsetOfNoMovement(p: real, sensitivity: real)
    ensures Offset(p, p, sensitivity) == 0.0
  {
    assert p - p == 0.0;
  }

  /** The state after the cursor moves to `(xpos, ypos)`. The first call
      takes the cursor position as the previous one, so it turns nothing. */
  function Pan(s: PanState, xpos: real, ypos: real): PanState {
    var lastx := if s.firstInt then xpos else s.lastx;
    var lasty := if s.firstInt then ypos else s.lasty;
    var xoffset := Offset(xpos, lastx, s.sensitivity);
    var yoffset := Offset(lasty, ypos, s.sensitivity);
    PanState(ClampPitch(s.pitch + yoffset), s.yaw + xoffset, false, xpos, ypos, s.sensitivity)
  }

  class PerspectiveCamera {
    var pitch: real
    var yaw: real
    var firstInt: bool
    var lastx: real
    var lasty: real
    var sensitivity: real
    /** How many times the view has been recomputed. */
    var viewUpdates: nat

    /** `pCam = pCamInit`. */
    constructor ()
      ensures State() == INITIAL && viewUpdates == 0
    {
      pitch, yaw, firstInt := 0.0, 0.0, true;
      lastx, lasty, sensitivity := 0.0, 0.0, 0.1;
      viewUpdates := 0;
    }

    function State(): PanState
      reads this
    {
      PanState(pitch, yaw, firstInt, lastx, lasty, sensitivity)
    }

    /** `pCamPan(xpos, ypos)`, then the view is recomputed once. */
    method PCamPan(xpos: real, ypos: real)
      modifies this
      ensures State() == Pan(old(State()), xpos, ypos)
      ensures viewUpdates == old(viewUpdates) + 1
    {
      ghost var s0 := State();
      if firstInt {
        lastx := xpos;
        lasty := ypos;
        firstInt := false;
      }
      var xoffset := Offset(xpos, lastx, sensitivity);
      var yoffset := Offset(lasty, ypos, sensitivity);
      lastx := xpos;
      lasty := ypos;
      yaw := yaw + xoffset;
      pitch := pitch + yoffset;
      pitch := if pitch > PITCH_LIMIT then PITCH_LIMIT else pitch;
      pitch := if pitch < -PITCH_LIMIT then -PITCH_LIMIT else pitch;
      assert pitch == ClampPitch(s0.pitch + yoffset);
      assert Pan(s0, xpos, ypos) == PanState(pitch, yaw, false, xpos, ypos, sensitivity);
      viewUpdates := viewUpdates + 1;
    }
  }

  /** After any pan the pitch is within the limit, the cursor position is
      remembered and the first-event flag is down; the sensitivity never
      changes. */
  lemma PanPostState(s: PanState, xpos: real, ypos: real)
    ensures -PITCH_LIMIT <= Pan(s, xpos, ypos).pitch <= PITCH_LIMIT
    ensures Pan(s, xpos, ypos).lastx == xpos && Pan(s, xpos, ypos).lasty == ypos
    ensures !Pan(s, xpos, ypos).firstInt
    ensures Pan(s, xpos, ypos).sensitivity == s.sensitivity
  {
  }

  /** The first pan turns the camera by nothing: the yaw is kept and the
      pitch only clamped, wherever the cursor is. */
  lemma FirstPanTurnsNothing(s: PanState, xpos: real, ypos: real)
    requires s.firstInt
    ensures Pan(s, xpos, ypos).yaw == s.yaw
    ensures Pan(s, xpos, ypos).pitch == ClampPitch(s.pitch)
  {
    OffsetOfNoMovement(xpos, s.sensitivity);
    OffsetOfNoMovement(ypos, s.sensitivity);
  }

  /** Later pans turn by the cursor's movement scaled by the sensitivity;
      moving the cursor up (smaller y) raises the pitch, up to the limit. */
  lemma LaterPanFollowsCursor(s: PanState, xpos: real, ypos: real)
    requires !s.firstInt
    ensures Pan(s, xpos, ypos).yaw == s.yaw + Offset(xpos, s.lastx, s.sensitivity)
    ensures Pan(s, xpos, ypos).pitch == ClampPitch(s.pitch + Offset(s.lasty, ypos, s.sensitivity))
  {
  }

  /** Reporting the same cursor position again changes nothing. */
  lemma PanIdempotent(s: PanState, xpos: real, ypos: real)
    ensures Pan(Pan(s, xpos, ypos), xpos, ypos) == Pan(s, xpos, ypos)
  {
    OffsetOfNoMovement(xpos, s.sensitivity);
    OffsetOfNoMovement(ypos, s.sensitivity);
  }

  /** Clamping is idempotent and monotone. */
  lemma ClampPitchMonotone(p: real, q: real)
    requires p <= q
    ensures ClampPitch(p) <= ClampPitch(q)
    ensures ClampPitch(ClampPitch(p)) == ClampPitch(p)
  {
  }
}
