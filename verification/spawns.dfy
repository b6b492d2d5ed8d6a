/** Where new asteroids come from: the two fragments of a destroyed
    asteroid, and the waves of large asteroids placed away from the ship. */
module Spawns {
  import opened Geometry
  import opened Chance
  import opened Asteroids

  /** `c` is a fragment of `p`: one tier smaller, at the parent's position,
      with the radius of its own tier. */
  predicate ChildOf(c: Asteroid, p: Asteroid) {
    c.size == p.size - 1 && c.pos == p.pos && c.radius == RadiusOf(c.size)
  }

  /** One iteration of SpawnSplitAsteroids: a heading and then a speed are
      drawn and handed to the constructor. */
  function Child(p: Asteroid, d: Dice, next: nat): (r: (Asteroid, nat))
    ensures ChildOf(r.0, p)
    ensures Uniform(d) ==> 1.0 <= r.0.speed < 3.0 && 0.0 <= r.0.angle < 2.0 * Pi
    ensures next < r.1
  {
    var angle := d.unit(next) * Pi * 2.0;
    var speed := d.unit(next + 1) * 2.0 + 1.0;
    NewAsteroid(p.pos, p.size - 1, speed, angle, d, next + 2)
  }

  /** SpawnSplitAsteroids: exactly two fragments of the parent. */
  function Split(p: Asteroid, d: Dice, next: nat): (r: (seq<Asteroid>, nat))
    ensures |r.0| == 2
    ensures forall i :: 0 <= i < 2 ==> ChildOf(r.0[i], p)
    ensures next < r.1
  {
    var (c1, n1) := Child(p, d, next);
    var (c2, n2) := Child(p, d, n1);
    ([c1, c2], n2)
  }

  /** A fragment of a valid asteroid that is not of the smallest tier is a
      valid asteroid. */
  lemma SplitValid(p: Asteroid, d: Dice, next: nat, w: int, h: int)
    requires Uniform(d)
    requires Valid(p, w, h) && 0 < p.size
    ensures forall i :: 0 <= i < 2 ==> Valid(Split(p, d, next).0[i], w, h)
  {
    var (c1, n1) := Child(p, d, next);
    var (c2, n2) := Child(p, d, n1);
    assert Split(p, d, next).0 == [c1, c2];
  }

  /** SpawnAsteroids(n): n large asteroids (none when n is not positive),
      each at the point the spawn loop accepts, with speed and heading left
      to the constructor. */
  function Wave(n: int, ship: Vec, d: Dice, next: nat): (r: (seq<Asteroid>, nat))
    ensures |r.0| == if n < 0 then 0 else n
    ensures forall i :: 0 <= i < |r.0| ==> r.0[i].size == Largest
    decreases n
  {
    if n <= 0 then ([], next)
    else
      var (a, n1) := NewAsteroid(CellPoint(d.spot(ship, next)), Largest, 0.0, 0.0, d, next + 1);
      var (more, n2) := Wave(n - 1, ship, d, n1);
      ([a] + more, n2)
  }

  /** With a fair random source every asteroid of a wave is valid and at
      least SpawnClearance away from the ship it was placed around. */
  lemma {:induction false} WaveValid(n: int, ship: Vec, d: Dice, next: nat, w: int, h: int)
    requires Fair(d, w, h)
    ensures forall i :: 0 <= i < |Wave(n, ship, d, next).0| ==> Valid(Wave(n, ship, d, next).0[i], w, h)
    ensures forall i :: 0 <= i < |Wave(n, ship, d, next).0| ==>
      Dist2(Wave(n, ship, d, next).0[i].pos, ship) >= SpawnClearance * SpawnClearance
    decreases n
  {
    if n > 0 {
      var c := d.spot(ship, next);
      assert Clear(c, ship, w, h);
      var (a, n1) := NewAsteroid(CellPoint(c), Largest, 0.0, 0.0, d, next + 1);
      WaveValid(n - 1, ship, d, n1, w, h);
      var r := Wave(n, ship, d, next).0;
      assert r == [a] + Wave(n - 1, ship, d, n1).0;
    }
  }
}
