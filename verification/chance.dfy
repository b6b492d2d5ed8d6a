/** The game's random source. The source draws from an unseeded
    System.Random, so no particular sequence of values can be claimed; the
    model receives the values it draws as an oracle instead. */
module Chance {
  import opened Geometry

  /** A grid point as `Random.Next(width)`, `Random.Next(height)` produce it. */
  datatype Cell = Cell(x: int, y: int)

  /** The random values one operation draws, indexed by a cursor that
      counts draw events in the order the operation makes them: `unit(k)` is
      the NextDouble result at event k, and `spot(p, k)` is the point the
      spawn loop finally accepts when it runs at event k while the ship sits
      at p (the loop redraws until the point is far enough from the ship; the
      whole loop counts as one event). */
  datatype Dice = Dice(unit: nat -> real, spot: (Vec, nat) -> Cell)

  /** Asteroids of a wave never appear closer than this to the ship. */
  const SpawnClearance: real := 100.0

  function CellPoint(c: Cell): Vec {
    Vec(c.x as real, c.y as real)
  }

  /** A point the spawn loop accepts: on the field and at distance at least
      SpawnClearance from the ship (compared on squares). */
  predicate Clear(c: Cell, ship: Vec, w: int, h: int) {
    && 0 <= c.x < w
    && 0 <= c.y < h
    && Dist2(CellPoint(c), ship) >= SpawnClearance * SpawnClearance
  }

  /** NextDouble values lie in [0, 1). */
  ghost predicate Uniform(d: Dice) {
    forall k: nat :: 0.0 <= d.unit(k) < 1.0
  }

  /** The draws a real generator can produce for a w-by-h field. */
  ghost predicate Fair(d: Dice, w: int, h: int) {
    && Uniform(d)
    && (forall p: Vec, k: nat :: Clear(d.spot(p, k), p, w, h))
  }
}
