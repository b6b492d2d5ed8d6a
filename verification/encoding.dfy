/** The observation the learning player sees: a fixed-length vector of 21
    numbers, six describing the ship and three for each of the five asteroids
    nearest to it, nearest first, padded with zeros. */
module Encoding {
  import opened Geometry
  import Ships
  import opened Asteroids
  import Games

  /** Ship features, then this many asteroid slots of this many features. */
  const ShipFeatures: int := 6
  const Slots: int := 5
  const SlotWidth: int := 3
  const StateLength: int := ShipFeatures + Slots * SlotWidth

  /** Game.DistanceBetween: the square root of the squared coordinate
      differences, from `p1` to `p2`. It is symmetric, and with an exact
      square root it is the non-negative root of the squared distance. */
  function DistanceBetween(t: Trig, p1: Vec, p2: Vec): (r: real)
    ensures r == Sqrt(t, Dist2(p1, p2))
    ensures ExactSqrt(t) ==> 0.0 <= r && r * r == Dist2(p1, p2)
  {
    Dist2Symmetric(p2, p1);
    SqNonNeg(p1.x - p2.x);
    SqNonNeg(p1.y - p2.y);
    Sqrt(t, Dist2(p2, p1))
  }

  /** With an exact square root, comparing distances to a common point is
      comparing squared distances. */
  lemma DistanceOrder(t: Trig, p: Vec, q: Vec, ship: Vec)
    ensures ExactSqrt(t) ==>
      (DistanceBetween(t, p, ship) <= DistanceBetween(t, q, ship) <==> Dist2(p, ship) <= Dist2(q, ship))
  {
    if ExactSqrt(t) {
      var sx, sy := DistanceBetween(t, p, ship), DistanceBetween(t, q, ship);
      if sx <= sy {
        SquareLe(sx, sy);
      } else {
        SquareLt(sy, sx);
      }
    }
  }

  /** DistanceOrder for every pair of points. */
  lemma DistancesOrdered(t: Trig, ship: Vec)
    ensures ExactSqrt(t) ==> forall p, q ::
      DistanceBetween(t, p, ship) <= DistanceBetween(t, q, ship) <==> Dist2(p, ship) <= Dist2(q, ship)
  {
    forall p, q {
      DistanceOrder(t, p, q, ship);
    }
  }

  /** The sort key of GetGameState: an asteroid's distance from the ship.
      With an exact square root, ordering by the key is ordering by squared
      distance from the ship. */
  function Key(t: Trig, ship: Vec): (key: Asteroid -> real)
    ensures forall a :: key(a) == DistanceBetween(t, a.pos, ship)
    ensures ExactSqrt(t) ==> forall a, b ::
      key(a) <= key(b) <==> Dist2(a.pos, ship) <= Dist2(b.pos, ship)
  {
    DistancesOrdered(t, ship);
    (a: Asteroid) => DistanceBetween(t, a.pos, ship)
  }

  /** Keys never decrease along the list. */
  predicate Sorted(key: Asteroid -> real, s: seq<Asteroid>) {
    forall i, j :: 0 <= i < j < |s| ==> key(s[i]) <= key(s[j])
  }

  /** Every key of the list is at least `lo`. */
  predicate Above(key: Asteroid -> real, s: seq<Asteroid>, lo: real) {
    forall i :: 0 <= i < |s| ==> lo <= key(s[i])
  }

  /** `a` placed before the first element whose key is not below its own. */
  function Insert(key: Asteroid -> real, a: Asteroid, s: seq<Asteroid>): (r: seq<Asteroid>)
    ensures multiset(r) == multiset(s) + multiset{a}
    decreases |s|
  {
    if s == [] then [a]
    else if key(a) <= key(s[0]) then [a] + s
    else
      assert s == [s[0]] + s[1..];
      [s[0]] + Insert(key, a, s[1..])
  }

  /** Inserting into a sorted list keeps it sorted, and keeps every key at or
      above a bound both the list and the new element respect. */
  lemma {:induction false} InsertSorted(key: Asteroid -> real, a: Asteroid, s: seq<Asteroid>)
    requires Sorted(key, s)
    ensures Sorted(key, Insert(key, a, s))
    ensures forall lo :: Above(key, s, lo) && lo <= key(a) ==> Above(key, Insert(key, a, s), lo)
    decreases |s|
  {
    if s == [] {
    } else if key(a) <= key(s[0]) {
      var r := [a] + s;
      assert Insert(key, a, s) == r;
      forall i, j | 0 <= i < j < |r|
        ensures key(r[i]) <= key(r[j])
      {
        assert r[j] == s[j - 1];
        if 0 < i {
          assert r[i] == s[i - 1];
        }
      }
      forall lo | Above(key, s, lo) && lo <= key(a)
        ensures Above(key, r, lo)
      {
        forall i | 0 <= i < |r|
          ensures lo <= key(r[i])
        {
          if 0 < i {
            assert r[i] == s[i - 1];
          }
        }
      }
    } else {
      var rest := Insert(key, a, s[1..]);
      var r := [s[0]] + rest;
      assert Insert(key, a, s) == r;
      assert Sorted(key, s[1..]);
      InsertSorted(key, a, s[1..]);
      assert Above(key, s[1..], key(s[0]));
      assert Above(key, rest, key(s[0]));
      forall i, j | 0 <= i < j < |r|
        ensures key(r[i]) <= key(r[j])
      {
        assert r[j] == rest[j - 1];
        if 0 < i {
          assert r[i] == rest[i - 1];
        }
      }
      forall lo | Above(key, s, lo) && lo <= key(a)
        ensures Above(key, r, lo)
      {
        assert Above(key, s[1..], lo);
        assert Above(key, rest, lo);
        forall i | 0 <= i < |r|
          ensures lo <= key(r[i])
        {
          if 0 < i {
            assert r[i] == rest[i - 1];
          }
        }
      }
    }
  }

  /** A stable insertion sort by key. */
  function SortBy(key: Asteroid -> real, s: seq<Asteroid>): (r: seq<Asteroid>)
    ensures multiset(r) == multiset(s)
    ensures Sorted(key, r)
    decreases |s|
  {
    if s == [] then []
    else
      assert s == [s[0]] + s[1..];
      var rest := SortBy(key, s[1..]);
      InsertSorted(key, s[0], rest);
      Insert(key, s[0], rest)
  }

  /** The three features of an occupied slot: the offset from the ship,
      relative to the play area, and the size tier halved. */
  function Slot(a: Asteroid, ship: Vec, w: int, h: int): (r: seq<real>)
    requires 0 < w && 0 < h
    ensures |r| == SlotWidth
  {
    [(a.pos.x - ship.x) / w as real, (a.pos.y - ship.y) / h as real, a.size as real / 2.0]
  }

  /** The features of slots `k` to the last: the `k`-th nearest asteroid if
      there is one, zeros otherwise. */
  function SlotsFrom(order: seq<Asteroid>, ship: Vec, w: int, h: int, k: nat): (r: seq<real>)
    requires 0 < w && 0 < h
    requires k <= Slots
    ensures |r| == (Slots - k) * SlotWidth
    decreases Slots - k
  {
    if k == Slots then []
    else
      var here := if k < |order| then Slot(order[k], ship, w, h) else [0.0, 0.0, 0.0];
      here + SlotsFrom(order, ship, w, h, k + 1)
  }

  /** The state vector for the asteroids in `order`. */
  function Encode(g: Games.Game, order: seq<Asteroid>, t: Trig): (r: seq<real>)
    requires 0 < g.w && 0 < g.h
    ensures |r| == StateLength == 21
  {
    ShipPart(g.ship, g.w, g.h, t) + SlotsFrom(order, g.ship.pos, g.w, g.h, 0)
  }

  /** The six ship features: position relative to the play area, sine and
      cosine of the heading, velocity over ten. */
  function ShipPart(s: Ships.Ship, w: int, h: int, t: Trig): (r: seq<real>)
    requires 0 < w && 0 < h
    ensures |r| == ShipFeatures
  {
    [ s.pos.x / w as real, s.pos.y / h as real,
      Sin(t, s.angle), Cos(t, s.angle),
      s.vel.x / 10.0, s.vel.y / 10.0 ]
  }

  /** Game.GetGameState, with the asteroids sorted nearest first. The
      source's List.Sort is not stable while SortBy is, so on ties this is
      one of the orders the source may produce; the lemmas below hold for
      every order it may produce (NearestFirst). */
  function GetGameState(g: Games.Game, t: Trig): (r: seq<real>)
    requires 0 < g.w && 0 < g.h
    ensures |r| == StateLength
    ensures NearestFirst(g, SortBy(Key(t, g.ship.pos), g.asteroids), t)
    ensures r == Encode(g, SortBy(Key(t, g.ship.pos), g.asteroids), t)
  {
    Encode(g, SortBy(Key(t, g.ship.pos), g.asteroids), t)
  }

  /** An order GetGameState may use: the game's asteroids, nearest first. */
  predicate NearestFirst(g: Games.Game, order: seq<Asteroid>, t: Trig) {
    multiset(order) == multiset(g.asteroids) && Sorted(Key(t, g.ship.pos), order)
  }

  /** Slot `k` of SlotsFrom(order, ..., j), by position. */
  lemma {:induction false} SlotAt(order: seq<Asteroid>, ship: Vec, w: int, h: int, j: nat, k: nat)
    requires 0 < w && 0 < h
    requires j <= k < Slots
    ensures var r := SlotsFrom(order, ship, w, h, j);
      r[(k - j) * SlotWidth .. (k - j) * SlotWidth + SlotWidth]
        == if k < |order| then Slot(order[k], ship, w, h) else [0.0, 0.0, 0.0]
    decreases k - j
  {
    var here := if j < |order| then Slot(order[j], ship, w, h) else [0.0, 0.0, 0.0];
    var rest := SlotsFrom(order, ship, w, h, j + 1);
    assert SlotsFrom(order, ship, w, h, j) == here + rest;
    if j < k {
      SlotAt(order, ship, w, h, j + 1, k);
      var o := (k - j) * SlotWidth;
      assert (here + rest)[o .. o + SlotWidth] == rest[o - SlotWidth .. o];
    }
  }

  /** The layout of the state vector: the six ship features, then for each
      slot `k` the `k`-th asteroid of the order or, past the last asteroid,
      three zeros. */
  lemma EncodeLayout(g: Games.Game, order: seq<Asteroid>, t: Trig, k: nat)
    requires 0 < g.w && 0 < g.h
    requires k < Slots
    ensures Encode(g, order, t)[..ShipFeatures] == ShipPart(g.ship, g.w, g.h, t)
    ensures var r, o := Encode(g, order, t), ShipFeatures + k * SlotWidth;
      k < |order| ==> r[o .. o + SlotWidth] == Slot(order[k], g.ship.pos, g.w, g.h)
    ensures var r, o := Encode(g, order, t), ShipFeatures + k * SlotWidth;
      |order| <= k ==> r[o .. o + SlotWidth] == [0.0, 0.0, 0.0]
  {
    var head := ShipPart(g.ship, g.w, g.h, t);
    var tail := SlotsFrom(order, g.ship.pos, g.w, g.h, 0);
    SlotAt(order, g.ship.pos, g.w, g.h, 0, k);
    var o := ShipFeatures + k * SlotWidth;
    assert (head + tail)[o .. o + SlotWidth] == tail[k * SlotWidth .. k * SlotWidth + SlotWidth];
  }

  /** EncodeLayout for the three entries of an occupied slot one by one. */
  lemma SlotEntries(g: Games.Game, order: seq<Asteroid>, t: Trig, k: nat)
    requires 0 < g.w && 0 < g.h
    requires k < Slots && k < |order|
    ensures var r, o, f := Encode(g, order, t), ShipFeatures + k * SlotWidth, Slot(order[k], g.ship.pos, g.w, g.h);
      r[o] == f[0] && r[o + 1] == f[1] && r[o + 2] == f[2]
  {
    EncodeLayout(g, order, t, k);
    var r, o := Encode(g, order, t), ShipFeatures + k * SlotWidth;
    assert r[o .. o + SlotWidth] == Slot(order[k], g.ship.pos, g.w, g.h);
  }

  /** The ship features in order: x / width, y / height, sine and cosine of
      the heading, and each velocity component over ten. */
  lemma ShipLayout(g: Games.Game, order: seq<Asteroid>, t: Trig)
    requires 0 < g.w && 0 < g.h
    ensures var r := Encode(g, order, t);
      && r[0] == g.ship.pos.x / g.w as real && r[1] == g.ship.pos.y / g.h as real
      && r[2] == Sin(t, g.ship.angle) && r[3] == Cos(t, g.ship.angle)
      && r[4] == g.ship.vel.x / 10.0 && r[5] == g.ship.vel.y / 10.0
  {
    EncodeLayout(g, order, t, 0);
  }

  /** The asteroid position a slot of a state vector stands for: the ship's
      position plus the slot's offset scaled back by the play area. */
  function SlotPos(r: seq<real>, k: nat, ship: Vec, w: int, h: int): Vec
    requires k < Slots && |r| == StateLength
  {
    var o := ShipFeatures + k * SlotWidth;
    Vec(ship.x + Unscale(r[o], w), ship.y + Unscale(r[o + 1], h))
  }

  /** A feature relative to the play area, scaled back to a coordinate. */
  function Unscale(f: real, extent: int): real {
    f * extent as real
  }

  /** Scaling an offset down and back up returns the point it was taken from. */
  lemma Rescale(p: real, s: real, m: real)
    requires m != 0.0
    ensures s + ((p - s) / m) * m == p
  {
  }

  /** The features of one slot, scaled back, give the asteroid's position
      and its size tier. */
  lemma SlotDecodes(a: Asteroid, ship: Vec, w: int, h: int)
    requires 0 < w && 0 < h
    ensures var f := Slot(a, ship, w, h);
      && ship.x + Unscale(f[0], w) == a.pos.x
      && ship.y + Unscale(f[1], h) == a.pos.y
      && f[2] * 2.0 == a.size as real
  {
    Rescale(a.pos.x, ship.x, w as real);
    Rescale(a.pos.y, ship.y, h as real);
  }

  /** Decoding inverts encoding: an occupied slot gives back the position and
      the size tier of its asteroid. */
  lemma DecodeSlot(g: Games.Game, order: seq<Asteroid>, t: Trig, k: nat)
    requires 0 < g.w && 0 < g.h
    requires k < Slots && k < |order|
    ensures SlotPos(Encode(g, order, t), k, g.ship.pos, g.w, g.h).x == order[k].pos.x
    ensures SlotPos(Encode(g, order, t), k, g.ship.pos, g.w, g.h).y == order[k].pos.y
    ensures Encode(g, order, t)[ShipFeatures + k * SlotWidth + 2] * 2.0 == order[k].size as real
  {
    SlotEntries(g, order, t, k);
    SlotDecodes(order[k], g.ship.pos, g.w, g.h);
  }

  /** The occupied slots of the state vector hold the asteroids nearest
      first: with an exact square root, the asteroid decoded from slot `i` is
      no farther from the ship than the one decoded from any later occupied
      slot `j`. */
  lemma NearestSlotsFirst(g: Games.Game, order: seq<Asteroid>, t: Trig, i: nat, j: nat)
    requires 0 < g.w && 0 < g.h
    requires ExactSqrt(t)
    requires NearestFirst(g, order, t)
    requires i < j < Slots && j < |order|
    ensures var r, s := Encode(g, order, t), g.ship.pos;
      Dist2(SlotPos(r, i, s, g.w, g.h), s) <= Dist2(SlotPos(r, j, s, g.w, g.h), s)
  {
    DecodeSlot(g, order, t, i);
    DecodeSlot(g, order, t, j);
    assert Key(t, g.ship.pos)(order[i]) <= Key(t, g.ship.pos)(order[j]);
  }

  /** Every asteroid past the fifth in a nearest-first order is at least as
      far from the ship as each of the five encoded ones. */
  lemma LeftOutAreFarther(g: Games.Game, order: seq<Asteroid>, t: Trig, i: nat, j: nat)
    requires ExactSqrt(t)
    requires NearestFirst(g, order, t)
    requires i < Slots <= j < |order|
    ensures Dist2(order[i].pos, g.ship.pos) <= Dist2(order[j].pos, g.ship.pos)
    ensures order[j] in g.asteroids
  {
    assert order[j] in multiset(order);
  }

  /** On a valid game the ship's position features lie in [0, 1), and the
      heading features in [-1, 1]. */
  lemma ShipFeatureRanges(g: Games.Game, order: seq<Asteroid>, t: Trig)
    requires Games.Valid(g)
    ensures var r := Encode(g, order, t);
      && 0.0 <= r[0] < 1.0 && 0.0 <= r[1] < 1.0
      && -1.0 <= r[2] <= 1.0 && -1.0 <= r[3] <= 1.0
  {
    ShipLayout(g, order, t);
    DivLt(g.ship.pos.x, g.w as real, 1.0);
    DivLt(g.ship.pos.y, g.h as real, 1.0);
  }

  /** On a valid game the size feature of every slot is 0, 0.5 or 1: a
      tier halved, or the padding zero. */
  lemma SizeFeatureRange(g: Games.Game, order: seq<Asteroid>, t: Trig, k: nat)
    requires Games.Valid(g)
    requires NearestFirst(g, order, t)
    requires k < Slots
    ensures Encode(g, order, t)[ShipFeatures + k * SlotWidth + 2] in {0.0, 0.5, 1.0}
  {
    var r, o := Encode(g, order, t), ShipFeatures + k * SlotWidth;
    if k < |order| {
      DecodeSlot(g, order, t, k);
      assert order[k] in multiset(g.asteroids);
      var i :| 0 <= i < |g.asteroids| && g.asteroids[i] == order[k];
      assert Asteroids.Valid(g.asteroids[i], g.w, g.h);
    } else {
      EncodeLayout(g, order, t, k);
      assert r[o + 2] == r[o .. o + SlotWidth][2];
    }
  }
}
