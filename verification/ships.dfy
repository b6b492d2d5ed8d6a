/** The player's ship: heading, velocity and the three control flags, and
    the per-tick rotate / thrust / drag / wrap rule. */
module Ships {
  import opened Geometry

  const ThrustPower: real := 0.15
  const RotationSpeed: real := 0.1
  const Drag: real := 0.99

  /** The per-axis speed that thrust and drag never push a velocity
      component beyond: (MaxAxisSpeed + ThrustPower) * Drag == MaxAxisSpeed. */
  const MaxAxisSpeed: real := 14.85

  datatype Ship = Ship(
    pos: Vec,
    angle: real,
    vel: Vec,
    thrusting: bool,
    rotatingLeft: bool,
    rotatingRight: bool)

  /** The three controls a player (or the policy) can hold down. */
  datatype Control = Thrust | RotateLeft | RotateRight

  function Flag(s: Ship, c: Control): bool {
    match c
    case Thrust => s.thrusting
    case RotateLeft => s.rotatingLeft
    case RotateRight => s.rotatingRight
  }

  /** A new ship at `start`, pointing up the screen, at rest, no control held. */
  function NewShip(start: Vec): (s: Ship)
    ensures s.pos == start
    ensures s.angle == -Pi / 2.0
    ensures s.vel == Vec(0.0, 0.0)
    ensures forall c :: !Flag(s, c)
  {
    Ship(start, -Pi / 2.0, Vec(0.0, 0.0), false, false, false)
  }

  /** The six setters StartThrusting ... StopRotatingRight: control `c` is
      switched to `on`; no other control and no motion state changes. */
  function SetFlag(s: Ship, c: Control, on: bool): (r: Ship)
    ensures Flag(r, c) == on
    ensures forall c' :: c' != c ==> Flag(r, c') == Flag(s, c')
    ensures r.pos == s.pos && r.angle == s.angle && r.vel == s.vel
  {
    match c
    case Thrust => s.(thrusting := on)
    case RotateLeft => s.(rotatingLeft := on)
    case RotateRight => s.(rotatingRight := on)
  }

  /** The heading after this tick's rotation: left first, then right. */
  function Turned(s: Ship): real {
    var a := if s.rotatingLeft then s.angle - RotationSpeed else s.angle;
    if s.rotatingRight then a + RotationSpeed else a
  }

  /** Ship.Update: rotate, thrust along the new heading, apply drag, then
      move by the new velocity and wrap on the w-by-h field. */
  function Step(s: Ship, w: int, h: int, t: Trig): (r: Ship)
    requires 0 < w && 0 < h
    ensures forall c :: Flag(r, c) == Flag(s, c)
    ensures s.rotatingLeft == s.rotatingRight ==> r.angle == s.angle
    ensures s.rotatingLeft && !s.rotatingRight ==> r.angle == s.angle - RotationSpeed
    ensures !s.rotatingLeft && s.rotatingRight ==> r.angle == s.angle + RotationSpeed
    ensures !s.thrusting ==> r.vel == Vec(Drag * s.vel.x, Drag * s.vel.y)
    ensures s.thrusting ==>
      r.vel == Vec(Drag * (s.vel.x + Along(t, r.angle, ThrustPower).x),
                   Drag * (s.vel.y + Along(t, r.angle, ThrustPower).y))
    ensures r.pos == Move(s.pos, r.vel, w, h)
  {
    var angle := Turned(s);
    var push := Along(t, angle, ThrustPower);
    var v := if s.thrusting then Vec(s.vel.x + push.x, s.vel.y + push.y) else s.vel;
    var vel := Vec(v.x * Drag, v.y * Drag);
    s.(angle := angle, vel := vel, pos := Move(s.pos, vel, w, h))
  }

  predicate SpeedBounded(v: Vec) {
    -MaxAxisSpeed <= v.x <= MaxAxisSpeed && -MaxAxisSpeed <= v.y <= MaxAxisSpeed
  }

  /** The state every reachable ship is in: on the field, each velocity
      component within MaxAxisSpeed. */
  predicate Valid(s: Ship, w: int, h: int) {
    InField(s.pos, w, h) && SpeedBounded(s.vel)
  }

  /** Thrust 0.15 and drag 0.99 keep each velocity component within 14.85. */
  lemma VelocityBounded(s: Ship, w: int, h: int, t: Trig)
    requires 0 < w && 0 < h
    requires SpeedBounded(s.vel)
    ensures SpeedBounded(Step(s, w, h, t).vel)
  {
  }

  /** With velocity components below the field's extents, the wrapped
      position stays on the field. */
  lemma StepStaysInField(s: Ship, w: int, h: int, t: Trig)
    requires 0 < w && 0 < h
    requires InField(s.pos, w, h) && SpeedBounded(s.vel)
    requires MaxAxisSpeed < w as real && MaxAxisSpeed < h as real
    ensures InField(Step(s, w, h, t).pos, w, h)
  {
    VelocityBounded(s, w, h, t);
  }

  lemma StepKeepsValid(s: Ship, w: int, h: int, t: Trig)
    requires 0 < w && 0 < h
    requires Valid(s, w, h)
    requires MaxAxisSpeed < w as real && MaxAxisSpeed < h as real
    ensures Valid(Step(s, w, h, t), w, h)
  {
    VelocityBounded(s, w, h, t);
    StepStaysInField(s, w, h, t);
  }
}
