/** Projectiles: fired from the ship's nose, fly at a fixed speed along a
    fixed heading, wrap on the field and expire after a fixed number of
    ticks. */
module Bullets {
  import opened Geometry

  const Speed: real := 7.0
  const MaxLifetime: int := 60

  /** How far ahead of the ship's centre a bullet appears. */
  const NoseOffset: real := 20.0

  datatype Bullet = Bullet(pos: Vec, angle: real, active: bool, lifetime: int)

  /** The constructor: at the ship's nose (not wrapped), with the ship's
      heading, active, with a full lifetime. */
  function NewBullet(at: Vec, shipAngle: real, t: Trig): (b: Bullet)
    ensures b.active && b.lifetime == MaxLifetime && b.angle == shipAngle
    ensures b.pos == Vec(at.x + Along(t, shipAngle, NoseOffset).x, at.y + Along(t, shipAngle, NoseOffset).y)
  {
    var v := Along(t, shipAngle, NoseOffset);
    Bullet(Vec(at.x + v.x, at.y + v.y), shipAngle, true, MaxLifetime)
  }

  /** A bullet fired from a ship on the field starts within NoseOffset of it. */
  lemma FiredNearField(at: Vec, shipAngle: real, w: int, h: int, t: Trig)
    requires InField(at, w, h)
    ensures NearField(NewBullet(at, shipAngle, t).pos, w, h, NoseOffset)
  {
  }

  /** Bullet.Update: an inactive bullet is left alone; an active one moves
      and wraps, loses one tick of lifetime, and turns inactive when the
      lifetime reaches zero. */
  function Step(b: Bullet, w: int, h: int, t: Trig): (r: Bullet)
    requires 0 < w && 0 < h
    ensures !b.active ==> r == b
    ensures b.active ==> r.angle == b.angle && r.lifetime == b.lifetime - 1
    ensures b.active ==> (r.active <==> r.lifetime > 0)
    ensures b.active ==> r.pos == Move(b.pos, Along(t, b.angle, Speed), w, h)
  {
    if !b.active then b
    else
      var pos := Move(b.pos, Along(t, b.angle, Speed), w, h);
      var life := b.lifetime - 1;
      Bullet(pos, b.angle, life > 0, life)
  }

  /** `n` consecutive updates. */
  function Steps(b: Bullet, n: nat, w: int, h: int, t: Trig): Bullet
    requires 0 < w && 0 < h
    decreases n
  {
    if n == 0 then b else Steps(Step(b, w, h, t), n - 1, w, h, t)
  }

  /** An active bullet with lifetime L stays active, its lifetime counting
      down by one per update, for L - 1 updates, and is inactive after the
      L-th; its heading never changes. */
  lemma {:induction false} Countdown(b: Bullet, n: nat, w: int, h: int, t: Trig)
    requires 0 < w && 0 < h
    requires b.active && 1 <= b.lifetime
    requires n <= b.lifetime
    ensures Steps(b, n, w, h, t).angle == b.angle
    ensures n < b.lifetime ==>
      Steps(b, n, w, h, t).active && Steps(b, n, w, h, t).lifetime == b.lifetime - n
    ensures n == b.lifetime ==> !Steps(b, n, w, h, t).active
    decreases n
  {
    if n > 0 {
      var b' := Step(b, w, h, t);
      if b.lifetime == 1 {
        assert !b'.active;
        InactiveStays(b', n - 1, w, h, t);
      } else {
        Countdown(b', n - 1, w, h, t);
      }
    }
  }

  lemma {:induction false} InactiveStays(b: Bullet, n: nat, w: int, h: int, t: Trig)
    requires 0 < w && 0 < h
    requires !b.active
    ensures Steps(b, n, w, h, t) == b
    decreases n
  {
    if n > 0 {
      InactiveStays(Step(b, w, h, t), n - 1, w, h, t);
    }
  }

  /** A freshly fired bullet survives 59 updates and is gone after the 60th. */
  lemma FreshBulletLifetime(at: Vec, shipAngle: real, w: int, h: int, t: Trig)
    requires 0 < w && 0 < h
    ensures Steps(NewBullet(at, shipAngle, t), 59, w, h, t).active
    ensures !Steps(NewBullet(at, shipAngle, t), 60, w, h, t).active
  {
    var b := NewBullet(at, shipAngle, t);
    Countdown(b, 59, w, h, t);
    Countdown(b, 60, w, h, t);
  }

  /** The smallest extent on which a bullet starting within NoseOffset of the
      field lands on the field after one move: NoseOffset + Speed. */
  const MinExtent: int := 27

  /** After an update, an active bullet that started within NoseOffset of the
      field is on the field. */
  lemma StepLandsInField(b: Bullet, w: int, h: int, t: Trig)
    requires MinExtent <= w && MinExtent <= h
    requires b.active && NearField(b.pos, w, h, NoseOffset)
    ensures InField(Step(b, w, h, t).pos, w, h)
  {
  }

  /** A bullet as it sits in the game's list between ticks. */
  predicate Valid(b: Bullet, w: int, h: int) {
    b.active && 1 <= b.lifetime <= MaxLifetime && NearField(b.pos, w, h, NoseOffset)
  }
}
