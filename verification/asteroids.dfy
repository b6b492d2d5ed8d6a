/** Asteroids: a size tier fixed at construction with a radius per tier,
    constant-velocity motion with toroidal wrap, and the two circle tests
    against bullets and against the ship. */
module Asteroids {
  import opened Geometry
  import opened Chance
  import Ships
  import Bullets

  /** The radius the collision tests give the ship. */
  const ShipRadius: real := 10.0

  /** Size tiers: 0 small, 1 medium, 2 large. */
  const Largest: int := 2

  datatype Asteroid = Asteroid(pos: Vec, size: int, radius: real, speed: real, angle: real)

  /** The radius the constructor's switch assigns; a size outside the three
      tiers matches no case and keeps the field's default of zero. */
  function RadiusOf(size: int): real {
    if size == 0 then 10.0
    else if size == 1 then 20.0
    else if size == 2 then 40.0
    else 0.0
  }

  /** GeneratePoints draws one value per outline vertex, 8 + 2 * size of
      them; they only shape the drawn outline. */
  function ShapeDraws(size: int): nat {
    if 8 + 2 * size > 0 then 8 + 2 * size else 0
  }

  /** The constructor. A speed or angle argument of zero means "not given"
      and is replaced by a random draw (speed first, then angle); the outline
      draws follow. The result also carries the index of the next unused
      draw. */
  function NewAsteroid(pos: Vec, size: int, speed: real, angle: real, d: Dice, next: nat): (r: (Asteroid, nat))
    ensures r.0.pos == pos && r.0.size == size
    ensures size == 0 ==> r.0.radius == 10.0
    ensures size == 1 ==> r.0.radius == 20.0
    ensures size == 2 ==> r.0.radius == 40.0
    ensures (size < 0 || Largest < size) ==> r.0.radius == 0.0
    ensures speed != 0.0 ==> r.0.speed == speed
    ensures angle != 0.0 ==> r.0.angle == angle
    ensures Uniform(d) && speed == 0.0 ==> 0.5 <= r.0.speed < 2.5
    ensures Uniform(d) && angle == 0.0 ==> 0.0 <= r.0.angle < 2.0 * Pi
    ensures next + ShapeDraws(size) <= r.1 <= next + 2 + ShapeDraws(size)
  {
    var (s, n1) := if speed == 0.0 then (d.unit(next) * 2.0 + 0.5, next + 1) else (speed, next);
    var (a, n2) := if angle == 0.0 then (d.unit(n1) * Pi * 2.0, n1 + 1) else (angle, n1);
    (Asteroid(pos, size, RadiusOf(size), s, a), n2 + ShapeDraws(size))
  }

  /** Asteroid.Update: one step along the fixed heading at the fixed speed,
      wrapped on the field. Only the position changes. */
  function Step(a: Asteroid, w: int, h: int, t: Trig): (r: Asteroid)
    requires 0 < w && 0 < h
    ensures r.size == a.size && r.radius == a.radius
    ensures r.speed == a.speed && r.angle == a.angle
    ensures r.pos == Move(a.pos, Along(t, a.angle, a.speed), w, h)
  {
    a.(pos := Move(a.pos, Along(t, a.angle, a.speed), w, h))
  }

  /** An asteroid on the field that moves less than one extent per tick stays
      on the field. */
  lemma StepStaysInField(a: Asteroid, w: int, h: int, t: Trig)
    requires 0 < w && 0 < h
    requires InField(a.pos, w, h)
    requires 0.0 <= a.speed && a.speed < w as real && a.speed < h as real
    ensures InField(Step(a, w, h, t).pos, w, h)
  {
  }

  /** Asteroid.CollidesWith(Bullet): the bullet is strictly inside the
      asteroid's circle. */
  predicate HitsBullet(a: Asteroid, b: Bullets.Bullet) {
    Dist2(a.pos, b.pos) < a.radius * a.radius
  }

  /** Asteroid.CollidesWith(Ship): the circles of the asteroid and of the
      ship's ShipRadius overlap. */
  predicate HitsShip(a: Asteroid, s: Ships.Ship) {
    Dist2(a.pos, s.pos) < (a.radius + ShipRadius) * (a.radius + ShipRadius)
  }

  /** Ship.CollidesWith(Asteroid), written from the ship's side. */
  predicate ShipHits(s: Ships.Ship, a: Asteroid) {
    Dist2(s.pos, a.pos) < (a.radius + ShipRadius) * (a.radius + ShipRadius)
  }

  /** The squared-distance tests decide exactly what the source's
      `sqrt(dx^2 + dy^2) < bound` comparisons decide, and the ship-side and
      asteroid-side ship tests agree. */
  lemma CollisionsMatchDistance(t: Trig, a: Asteroid, s: Ships.Ship, b: Bullets.Bullet)
    requires ExactSqrt(t)
    requires 0.0 <= a.radius
    ensures HitsBullet(a, b) <==> Sqrt(t, Dist2(a.pos, b.pos)) < a.radius
    ensures HitsShip(a, s) <==> Sqrt(t, Dist2(a.pos, s.pos)) < a.radius + ShipRadius
    ensures ShipHits(s, a) <==> HitsShip(a, s)
  {
    Dist2Symmetric(a.pos, b.pos);
    Dist2Symmetric(a.pos, s.pos);
    SqrtCompare(t, Dist2(a.pos, b.pos), a.radius);
    SqrtCompare(t, Dist2(a.pos, s.pos), a.radius + ShipRadius);
  }

  /** An asteroid as every reachable game holds it: a known tier with its
      radius, on the field, moving at a speed below 3 per tick. */
  predicate Valid(a: Asteroid, w: int, h: int) {
    && 0 <= a.size <= Largest
    && a.radius == RadiusOf(a.size)
    && InField(a.pos, w, h)
    && 0.0 < a.speed < 3.0
  }

  lemma StepKeepsValid(a: Asteroid, w: int, h: int, t: Trig)
    requires 3 <= w && 3 <= h
    requires Valid(a, w, h)
    ensures Valid(Step(a, w, h, t), w, h)
  {
    StepStaysInField(a, w, h, t);
  }
}
