/** The game: the play area, the ship, the asteroid and bullet lists, the
    score, the level and the game-over flag, with the tick that moves every
    entity, resolves collisions and starts the next wave. */
module Games {
  import opened Geometry
  import opened Options
  import opened Chance
  import Ships
  import opened Bullets
  import opened Asteroids
  import opened Spawns

  datatype Game = Game(
    w: int,
    h: int,
    ship: Ships.Ship,
    asteroids: seq<Asteroid>,
    bullets: seq<Bullet>,
    over: bool,
    score: int,
    level: int)

  const FirstLevel: int := 1

  /** The number of large asteroids the wave of a level brings. */
  function WaveSize(level: int): int {
    level * 2 + 3
  }

  /** The score for destroying an asteroid of tier `size`. */
  function Points(size: int): int {
    (3 - size + 1) * 100
  }

  /** Large, medium and small asteroids are worth 200, 300 and 400 points,
      (4 - size) * 100 in general; smaller is worth more. */
  lemma PointsByTier(size: int)
    ensures Points(size) == (4 - size) * 100
    ensures Points(Largest) == 200 && Points(1) == 300 && Points(0) == 400
    ensures 0 <= size <= Largest ==> 200 <= Points(size) <= 400
  {
  }

  /** The score earned for a list of destroyed asteroids. */
  function Bounty(destroyed: seq<Asteroid>): (r: int)
    ensures (forall i :: 0 <= i < |destroyed| ==> destroyed[i].size <= Largest) ==> 200 * |destroyed| <= r
  {
    if destroyed == [] then 0 else Points(destroyed[0].size) + Bounty(destroyed[1..])
  }

  /** The centre of the play area as the source computes it: integer halves
      of the width and height, then converted. */
  function Centre(w: int, h: int): Vec {
    Vec((w / 2) as real, (h / 2) as real)
  }

  /** A cell coordinate is no farther from the integer half of its extent
      than that half is from 0. */
  lemma OffsetFromHalf(x: int, w: int)
    requires 0 <= x < w
    ensures Sq(x as real - (w / 2) as real) <= Sq((w / 2) as real)
  {
    var e := x as real - (w / 2) as real;
    if e < 0.0 {
      SquareLe(-e, (w / 2) as real);
      assert (-e) * (-e) == e * e;
    } else {
      SquareLe(e, (w / 2) as real);
    }
  }

  /** The squared distance from the centre to the corner (0, 0), in whole
      numbers as the source's integer halves give it. */
  function CornerRoom(w: int, h: int): (r: int)
    ensures r as real == Sq((w / 2) as real) + Sq((h / 2) as real)
  {
    (w / 2) * (w / 2) + (h / 2) * (h / 2)
  }

  /** No cell is farther from the centre than the corner (0, 0). */
  lemma CornerFarthest(c: Cell, w: int, h: int)
    requires 0 <= c.x < w && 0 <= c.y < h
    ensures Dist2(CellPoint(c), Centre(w, h)) <= CornerRoom(w, h) as real
  {
    OffsetFromHalf(c.x, w);
    OffsetFromHalf(c.y, h);
  }

  /** The room the spawn loop has around the reset ship. A cell at least
      SpawnClearance from the centre exists exactly when the corner (0, 0)
      is one, that is, when the squared integer half-extents sum to at least
      10000. On a smaller field the loop in Reset redraws forever, and no
      random source is fair for the field. */
  lemma SpawnRoom(w: int, h: int, d: Dice)
    requires 0 < w && 0 < h
    ensures (exists c :: Clear(c, Centre(w, h), w, h)) <==> CornerRoom(w, h) >= 10000
    ensures CornerRoom(w, h) < 10000 ==> !Fair(d, w, h)
  {
    var o := Centre(w, h);
    assert Dist2(CellPoint(Cell(0, 0)), o) == CornerRoom(w, h) as real;
    if CornerRoom(w, h) >= 10000 {
      assert Clear(Cell(0, 0), o, w, h);
    }
    forall c | Clear(c, o, w, h)
      ensures CornerRoom(w, h) >= 10000
    {
      CornerFarthest(c, w, h);
    }
    if Fair(d, w, h) {
      assert Clear(d.spot(o, 0), o, w, h);
    }
  }

  /** The constructor and Reset: a new ship at the centre, no bullets, score
      0, level 1, and the first wave. */
  function Fresh(w: int, h: int, d: Dice): (r: Game)
    requires 0 < w && 0 < h
    ensures r.w == w && r.h == h
    ensures r.ship == Ships.NewShip(Centre(w, h))
    ensures r.bullets == [] && !r.over && r.score == 0 && r.level == FirstLevel
    ensures |r.asteroids| == WaveSize(FirstLevel) == 5
    ensures forall i :: 0 <= i < |r.asteroids| ==> r.asteroids[i].size == Largest
  {
    var ship := Ships.NewShip(Centre(w, h));
    Game(w, h, ship, Wave(WaveSize(FirstLevel), ship.pos, d, 0).0, [], false, 0, FirstLevel)
  }

  /** Reset keeps the play area and starts over: ship at the centre, at rest
      and pointing up, no bullets, score 0, level 1, not over, and a wave of
      five large asteroids. */
  function Reset(g: Game, d: Dice): (r: Game)
    requires 0 < g.w && 0 < g.h
    ensures r.w == g.w && r.h == g.h
    ensures r.ship == Ships.NewShip(Centre(g.w, g.h))
    ensures r.bullets == [] && !r.over && r.score == 0 && r.level == FirstLevel
    ensures |r.asteroids| == 5 && forall i :: 0 <= i < 5 ==> r.asteroids[i].size == Largest
  {
    Fresh(g.w, g.h, d)
  }

  /** The state every game reachable from Fresh is in between ticks. */
  predicate Valid(g: Game) {
    && MinExtent <= g.w && MinExtent <= g.h
    && Ships.Valid(g.ship, g.w, g.h)
    && |g.asteroids| > 0
    && (forall i :: 0 <= i < |g.asteroids| ==> Asteroids.Valid(g.asteroids[i], g.w, g.h))
    && (forall i :: 0 <= i < |g.bullets| ==> Bullets.Valid(g.bullets[i], g.w, g.h))
    && 0 <= g.score
    && FirstLevel <= g.level
  }

  /** On a fair random source a fresh game is valid, and every asteroid of
      the first wave is at least SpawnClearance away from the ship. */
  lemma FreshValid(w: int, h: int, d: Dice)
    requires MinExtent <= w && MinExtent <= h
    requires Fair(d, w, h)
    ensures Valid(Fresh(w, h, d))
    ensures forall i :: 0 <= i < 5 ==>
      Dist2(Fresh(w, h, d).asteroids[i].pos, Fresh(w, h, d).ship.pos) >= SpawnClearance * SpawnClearance
  {
    var c := Centre(w, h);
    WaveValid(WaveSize(FirstLevel), c, d, 0, w, h);
  }

  /** Shoot: one new bullet at the ship's nose; nothing else changes. */
  function Shoot(g: Game, t: Trig): (r: Game)
    ensures r.bullets == g.bullets + [NewBullet(g.ship.pos, g.ship.angle, t)]
    ensures r.(bullets := g.bullets) == g
  {
    g.(bullets := g.bullets + [NewBullet(g.ship.pos, g.ship.angle, t)])
  }

  /** Shooting from a valid game leaves it valid. */
  lemma ShootKeepsValid(g: Game, t: Trig)
    requires Valid(g)
    ensures Valid(Shoot(g, t))
  {
    FiredNearField(g.ship.pos, g.ship.angle, g.w, g.h, t);
  }

  /** PerformAction: 0 releases every control, 1 to 3 press one control, 4
      shoots, and any other id does nothing. */
  function PerformAction(g: Game, id: int, t: Trig): (r: Game)
    ensures id == 0 ==> forall c :: !Ships.Flag(r.ship, c)
    ensures id == 1 ==> Ships.Flag(r.ship, Ships.Thrust)
    ensures id == 2 ==> Ships.Flag(r.ship, Ships.RotateLeft)
    ensures id == 3 ==> Ships.Flag(r.ship, Ships.RotateRight)
    ensures forall c :: 1 <= id <= 3 && c != ControlOf(id) ==> Ships.Flag(r.ship, c) == Ships.Flag(g.ship, c)
    ensures id != 4 ==> r.bullets == g.bullets
    ensures id == 4 ==> |r.bullets| == |g.bullets| + 1 && r.bullets[..|g.bullets|] == g.bullets
    ensures id == 4 ==> r.ship == g.ship
    ensures r.ship.pos == g.ship.pos && r.ship.angle == g.ship.angle && r.ship.vel == g.ship.vel
    ensures r.(ship := g.ship, bullets := g.bullets) == g
    ensures (id < 0 || 4 < id) ==> r == g
  {
    if id == 0 then
      g.(ship := Ships.SetFlag(Ships.SetFlag(Ships.SetFlag(g.ship, Ships.Thrust, false), Ships.RotateLeft, false), Ships.RotateRight, false))
    else if 1 <= id <= 3 then
      g.(ship := Ships.SetFlag(g.ship, ControlOf(id), true))
    else if id == 4 then
      Shoot(g, t)
    else
      g
  }

  /** The control that action ids 1, 2 and 3 press. */
  function ControlOf(id: int): Ships.Control {
    if id == 1 then Ships.Thrust else if id == 2 then Ships.RotateLeft else Ships.RotateRight
  }

  lemma PerformActionKeepsValid(g: Game, id: int, t: Trig)
    requires Valid(g)
    ensures Valid(PerformAction(g, id, t))
  {
    if id == 4 {
      ShootKeepsValid(g, t);
    }
  }

  /** The keys the game reacts to; every other key is `Other`. */
  datatype Key = Left | Right | Up | Space | Other

  /** HandleKeyDown: the arrows press their control, Space shoots. */
  function HandleKeyDown(g: Game, k: Key, t: Trig): (r: Game)
    ensures k == Left ==> r == g.(ship := Ships.SetFlag(g.ship, Ships.RotateLeft, true))
    ensures k == Right ==> r == g.(ship := Ships.SetFlag(g.ship, Ships.RotateRight, true))
    ensures k == Up ==> r == g.(ship := Ships.SetFlag(g.ship, Ships.Thrust, true))
    ensures k == Space ==> r == Shoot(g, t)
    ensures k == Other ==> r == g
  {
    match k
    case Left => PerformAction(g, 2, t)
    case Right => PerformAction(g, 3, t)
    case Up => PerformAction(g, 1, t)
    case Space => PerformAction(g, 4, t)
    case Other => g
  }

  /** The control an arrow key releases: Left and Right the rotations, Up
      the thrust; Space and other keys release nothing. */
  predicate Releases(k: Key, c: Ships.Control) {
    || (k == Left && c == Ships.RotateLeft)
    || (k == Right && c == Ships.RotateRight)
    || (k == Up && c == Ships.Thrust)
  }

  /** HandleKeyUp: the arrows release their control; Space and other keys
      do nothing. */
  function HandleKeyUp(g: Game, k: Key): (r: Game)
    ensures forall c :: Ships.Flag(r.ship, c) == (Ships.Flag(g.ship, c) && !Releases(k, c))
    ensures r.ship.pos == g.ship.pos && r.ship.angle == g.ship.angle && r.ship.vel == g.ship.vel
    ensures r.(ship := g.ship) == g
    ensures k == Space || k == Other ==> r == g
  {
    match k
    case Left => g.(ship := Ships.SetFlag(g.ship, Ships.RotateLeft, false))
    case Right => g.(ship := Ships.SetFlag(g.ship, Ships.RotateRight, false))
    case Up => g.(ship := Ships.SetFlag(g.ship, Ships.Thrust, false))
    case Space => g
    case Other => g
  }

  /** Key handling keeps a valid game valid. */
  lemma KeysKeepValid(g: Game, k: Key, t: Trig)
    requires Valid(g)
    ensures Valid(HandleKeyDown(g, k, t)) && Valid(HandleKeyUp(g, k))
  {
    if k == Space {
      ShootKeepsValid(g, t);
    }
  }

  /** The bullet pass of Update: every bullet moves, and the ones that
      expire on this move are dropped. */
  function MoveBullets(bs: seq<Bullet>, w: int, h: int, t: Trig): (r: seq<Bullet>)
    requires 0 < w && 0 < h
    ensures |r| <= |bs|
    ensures forall i :: 0 <= i < |r| ==> r[i].active
    decreases |bs|
  {
    if bs == [] then []
    else
      var b := Bullets.Step(bs[0], w, h, t);
      (if b.active then [b] else []) + MoveBullets(bs[1..], w, h, t)
  }

  /** Valid bullets stay valid after the bullet pass; a bullet survives it
      exactly when its lifetime was above one. */
  lemma {:induction false} MoveBulletsValid(bs: seq<Bullet>, w: int, h: int, t: Trig)
    requires MinExtent <= w && MinExtent <= h
    requires forall i :: 0 <= i < |bs| ==> Bullets.Valid(bs[i], w, h)
    ensures forall i :: 0 <= i < |MoveBullets(bs, w, h, t)| ==> Bullets.Valid(MoveBullets(bs, w, h, t)[i], w, h)
    ensures |MoveBullets(bs, w, h, t)| == |Lasting(bs)|
    decreases |bs|
  {
    if bs != [] {
      var b := Bullets.Step(bs[0], w, h, t);
      StepLandsInField(bs[0], w, h, t);
      MoveBulletsValid(bs[1..], w, h, t);
      var r := MoveBullets(bs, w, h, t);
      var more := MoveBullets(bs[1..], w, h, t);
      assert r == (if b.active then [b] else []) + more;
      assert bs == [bs[0]] + bs[1..];
      assert Lasting(bs) == (if bs[0].lifetime > 1 then [bs[0]] else []) + Lasting(bs[1..]);
    }
  }

  /** Every bullet of a list after one update, in order. */
  function StepAll(bs: seq<Bullet>, w: int, h: int, t: Trig): (r: seq<Bullet>)
    requires 0 < w && 0 < h
    ensures |r| == |bs|
    ensures forall i :: 0 <= i < |bs| ==> r[i] == Bullets.Step(bs[i], w, h, t)
    decreases |bs|
  {
    if bs == [] then [] else [Bullets.Step(bs[0], w, h, t)] + StepAll(bs[1..], w, h, t)
  }

  /** On active bullets the bullet pass is exactly: keep the bullets whose
      lifetime is above one, in their order, and move each of them once. */
  lemma {:induction false} MoveBulletsSteps(bs: seq<Bullet>, w: int, h: int, t: Trig)
    requires 0 < w && 0 < h
    ensures (forall i :: 0 <= i < |bs| ==> bs[i].active) ==>
      MoveBullets(bs, w, h, t) == StepAll(Lasting(bs), w, h, t)
    decreases |bs|
  {
    if bs != [] && forall i :: 0 <= i < |bs| ==> bs[i].active {
      assert forall i :: 0 <= i < |bs[1..]| ==> bs[1..][i].active by {
        forall i | 0 <= i < |bs[1..]| ensures bs[1..][i].active {
          assert bs[1..][i] == bs[i + 1];
        }
      }
      MoveBulletsSteps(bs[1..], w, h, t);
      var b := Bullets.Step(bs[0], w, h, t);
      var rest := Lasting(bs[1..]);
      assert MoveBullets(bs, w, h, t) == (if b.active then [b] else []) + MoveBullets(bs[1..], w, h, t);
      assert Lasting(bs) == (if bs[0].lifetime > 1 then [bs[0]] else []) + rest;
      if bs[0].lifetime > 1 {
        assert b.active;
        assert ([bs[0]] + rest)[1..] == rest;
        assert StepAll([bs[0]] + rest, w, h, t) == [b] + StepAll(rest, w, h, t);
      } else {
        assert !b.active;
      }
    }
  }

  /** The bullets whose lifetime is above one: the ones one more move keeps. */
  function Lasting(bs: seq<Bullet>): seq<Bullet> {
    if bs == [] then []
    else (if bs[0].lifetime > 1 then [bs[0]] else []) + Lasting(bs[1..])
  }

  /** The index of the first bullet an asteroid collides with, if any: the
      inner loop of Update stops at the first hit. */
  function FirstHit(a: Asteroid, bs: seq<Bullet>, hits: (Asteroid, Bullet) -> bool): (r: Option<nat>)
    ensures r.None? ==> forall i :: 0 <= i < |bs| ==> !(bs[i].active && hits(a, bs[i]))
    ensures r.Some? ==> r.value < |bs| && bs[r.value].active && hits(a, bs[r.value])
    ensures r.Some? ==> forall i :: 0 <= i < r.value ==> !(bs[i].active && hits(a, bs[i]))
    decreases |bs|
  {
    if bs == [] then None
    else if bs[0].active && hits(a, bs[0]) then Some(0)
    else
      match FirstHit(a, bs[1..], hits)
      case None => None
      case Some(j) => Some(j + 1)
  }

  /** `s` without its element at index `j`; the list's other elements keep
      their order. */
  function RemoveAt<T>(s: seq<T>, j: nat): (r: seq<T>)
    requires j < |s|
    ensures |r| == |s| - 1
    ensures multiset(r) + multiset{s[j]} == multiset(s)
    ensures forall i :: 0 <= i < j ==> r[i] == s[i]
    ensures forall i :: j <= i < |r| ==> r[i] == s[i + 1]
  {
    assert s == s[..j] + [s[j]] + s[j + 1..];
    s[..j] + s[j + 1..]
  }

  /** Every asteroid of a list moved one step. */
  function MoveAll(s: seq<Asteroid>, move: Asteroid -> Asteroid): (r: seq<Asteroid>)
    ensures |r| == |s|
    ensures forall i :: 0 <= i < |s| ==> r[i] == move(s[i])
    decreases |s|
  {
    if s == [] then [] else [move(s[0])] + MoveAll(s[1..], move)
  }

  /** The rules an asteroid pass applies, fixed for the whole pass: how an
      asteroid moves, whether a moved asteroid reaches the ship, whether a
      bullet touches it, and how it breaks up (given the next unused random
      draw). */
  datatype Rules = Rules(
    move: Asteroid -> Asteroid,
    crashes: Asteroid -> bool,
    hits: (Asteroid, Bullet) -> bool,
    split: (Asteroid, nat) -> (seq<Asteroid>, nat))

  /** The game's own rules for a tick: Asteroid.Update, the two CollidesWith
      tests against the already moved ship, and SpawnSplitAsteroids. They
      break every asteroid into two of its fragments and, on a field of at
      least 3 by 3 with a fair random source, keep asteroids valid. */
  function TickRules(ship: Ships.Ship, w: int, h: int, t: Trig, d: Dice): (r: Rules)
    requires 0 < w && 0 < h
    ensures forall a :: r.move(a) == Asteroids.Step(a, w, h, t)
    ensures forall a :: r.crashes(a) == HitsShip(a, ship)
    ensures forall a, b :: r.hits(a, b) == HitsBullet(a, b)
    ensures forall a, n :: r.split(a, n) == Split(a, d, n)
    ensures SplitsInTwo(r)
    ensures 3 <= w && 3 <= h && Uniform(d) ==> MovesSoundly(r, w, h) && SplitsSoundly(r, w, h)
  {
    StepsKeepValid(w, h, t);
    SplitsKeepValid(d, w, h);
    Rules(a => Asteroids.Step(a, w, h, t), a => HitsShip(a, ship), (a, b) => HitsBullet(a, b), (a, n) => Split(a, d, n))
  }

  /** Asteroids.StepKeepsValid for every asteroid. */
  lemma StepsKeepValid(w: int, h: int, t: Trig)
    requires 0 < w && 0 < h
    ensures 3 <= w && 3 <= h ==>
      forall a :: Asteroids.Valid(a, w, h) ==> Asteroids.Valid(Asteroids.Step(a, w, h, t), w, h)
  {
    if 3 <= w && 3 <= h {
      forall a | Asteroids.Valid(a, w, h)
        ensures Asteroids.Valid(Asteroids.Step(a, w, h, t), w, h)
      {
        Asteroids.StepKeepsValid(a, w, h, t);
      }
    }
  }

  /** Spawns.SplitValid for every asteroid and every draw index. */
  lemma SplitsKeepValid(d: Dice, w: int, h: int)
    ensures Uniform(d) ==> forall a, n, i ::
      Asteroids.Valid(a, w, h) && 0 < a.size && 0 <= i < |Split(a, d, n).0| ==>
        Asteroids.Valid(Split(a, d, n).0[i], w, h)
  {
    if Uniform(d) {
      forall a, n | Asteroids.Valid(a, w, h) && 0 < a.size
        ensures forall i :: 0 <= i < |Split(a, d, n).0| ==> Asteroids.Valid(Split(a, d, n).0[i], w, h)
      {
        SplitValid(a, d, n, w, h);
      }
    }
  }

  /** Rules that break every asteroid into exactly two of its fragments. */
  ghost predicate SplitsInTwo(rules: Rules) {
    forall a, n :: |rules.split(a, n).0| == 2
      && ChildOf(rules.split(a, n).0[0], a) && ChildOf(rules.split(a, n).0[1], a)
  }

  /** Rules whose move keeps every valid asteroid valid. */
  ghost predicate MovesSoundly(rules: Rules, w: int, h: int) {
    forall a :: Asteroids.Valid(a, w, h) ==> Asteroids.Valid(rules.move(a), w, h)
  }

  /** Rules whose split turns a valid asteroid above the smallest tier into
      valid fragments. */
  ghost predicate SplitsSoundly(rules: Rules, w: int, h: int) {
    forall a, n, i :: Asteroids.Valid(a, w, h) && 0 < a.size && 0 <= i < |rules.split(a, n).0| ==>
      Asteroids.Valid(rules.split(a, n).0[i], w, h)
  }

  /** The outcome of the asteroid pass of one tick.
      `kept`: moved asteroids that survive (after a crash, the crashing one
      last); `destroyed` and `spent`: each destroyed asteroid, moved, with the
      bullet that destroyed it; `born`: the fragments, in the order they were
      appended; `bullets`: the bullets left; `crashed`: whether an asteroid
      reached the ship; `rest`: after a crash, the asteroids the pass never
      reached; `next`: the next unused random draw. */
  datatype Sweep = Sweep(
    kept: seq<Asteroid>,
    destroyed: seq<Asteroid>,
    spent: seq<Bullet>,
    born: seq<Asteroid>,
    bullets: seq<Bullet>,
    crashed: bool,
    rest: seq<Asteroid>,
    next: nat)

  /** Fragments in the order SpawnSplitAsteroids appends them: two per
      destroyed asteroid above the smallest tier, none for the smallest. */
  predicate Offspring(destroyed: seq<Asteroid>, born: seq<Asteroid>)
    decreases |destroyed|
  {
    if destroyed == [] then born == []
    else if destroyed[0].size > 0 then
      && 2 <= |born|
      && ChildOf(born[0], destroyed[0])
      && ChildOf(born[1], destroyed[0])
      && Offspring(destroyed[1..], born[2..])
    else Offspring(destroyed[1..], born)
  }

  /** What a destroyed asteroid leaves behind, and the next unused draw:
      fragments when it is above the smallest tier, nothing otherwise. */
  function Fragments(rules: Rules, a: Asteroid, next: nat): (seq<Asteroid>, nat) {
    if a.size > 0 then rules.split(a, next) else ([], next)
  }

  /** The asteroid loop of Update over the snapshot `todo`: each asteroid
      moves; one touching the ship ends the pass; otherwise the first bullet
      it touches is consumed, scores, and splits it. Every asteroid of the
      snapshot is accounted for exactly once. */
  function SweepFrom(todo: seq<Asteroid>, bullets: seq<Bullet>, rules: Rules, next: nat): (r: Sweep)
    ensures |r.kept| + |r.destroyed| + |r.rest| == |todo|
    ensures |r.spent| == |r.destroyed|
    ensures |r.bullets| + |r.spent| == |bullets|
    ensures !r.crashed ==> r.rest == []
    decreases |todo|
  {
    if todo == [] then Sweep([], [], [], [], bullets, false, [], next)
    else
      var a := rules.move(todo[0]);
      if rules.crashes(a) then
        Sweep([a], [], [], [], bullets, true, todo[1..], next)
      else
        match FirstHit(a, bullets, rules.hits)
        case None =>
          var s := SweepFrom(todo[1..], bullets, rules, next);
          s.(kept := [a] + s.kept)
        case Some(j) =>
          var (kids, n1) := Fragments(rules, a, next);
          var s := SweepFrom(todo[1..], RemoveAt(bullets, j), rules, n1);
          s.(destroyed := [a] + s.destroyed, spent := [bullets[j]] + s.spent, born := kids + s.born)
  }

  /** The first asteroid of the snapshot reaches the ship: the pass ends. */
  lemma SweepCrashStep(todo: seq<Asteroid>, bullets: seq<Bullet>, rules: Rules, next: nat)
    requires todo != [] && rules.crashes(rules.move(todo[0]))
    ensures SweepFrom(todo, bullets, rules, next)
      == Sweep([rules.move(todo[0])], [], [], [], bullets, true, todo[1..], next)
  {
  }

  /** The first asteroid of the snapshot survives: it heads the survivors. */
  lemma SweepSurviveStep(todo: seq<Asteroid>, bullets: seq<Bullet>, rules: Rules, next: nat)
    requires todo != [] && !rules.crashes(rules.move(todo[0]))
    requires FirstHit(rules.move(todo[0]), bullets, rules.hits).None?
    ensures var s := SweepFrom(todo[1..], bullets, rules, next);
      SweepFrom(todo, bullets, rules, next) == s.(kept := [rules.move(todo[0])] + s.kept)
  {
  }

  /** The first asteroid of the snapshot is destroyed by bullet `j`. */
  lemma SweepDestroyStep(todo: seq<Asteroid>, bullets: seq<Bullet>, rules: Rules, next: nat, j: nat)
    requires todo != [] && !rules.crashes(rules.move(todo[0]))
    requires FirstHit(rules.move(todo[0]), bullets, rules.hits) == Some(j)
    ensures var a := rules.move(todo[0]);
      var f := Fragments(rules, a, next);
      var s := SweepFrom(todo[1..], RemoveAt(bullets, j), rules, f.1);
      SweepFrom(todo, bullets, rules, next)
        == s.(destroyed := [a] + s.destroyed, spent := [bullets[j]] + s.spent, born := f.0 + s.born)
  {
  }

  /** No asteroid is lost or invented by the pass: the moved snapshot is
      exactly the survivors, the destroyed and the (moved) unreached ones. */
  lemma {:induction false} SweepKeepsAsteroids(todo: seq<Asteroid>, bullets: seq<Bullet>, rules: Rules, next: nat)
    ensures var r := SweepFrom(todo, bullets, rules, next);
      multiset(r.kept) + multiset(r.destroyed) + multiset(MoveAll(r.rest, rules.move))
        == multiset(MoveAll(todo, rules.move))
    decreases |todo|
  {
    if todo != [] {
      var a := rules.move(todo[0]);
      assert MoveAll(todo, rules.move) == [a] + MoveAll(todo[1..], rules.move);
      var hit := FirstHit(a, bullets, rules.hits);
      if rules.crashes(a) {
        SweepCrashStep(todo, bullets, rules, next);
      } else if hit.None? {
        SweepSurviveStep(todo, bullets, rules, next);
        SweepKeepsAsteroids(todo[1..], bullets, rules, next);
      } else {
        SweepDestroyStep(todo, bullets, rules, next, hit.value);
        SweepKeepsAsteroids(todo[1..], RemoveAt(bullets, hit.value), rules, Fragments(rules, a, next).1);
      }
    }
  }

  /** No bullet is lost or invented by the pass: the bullets are exactly the
      ones left and the ones spent. */
  lemma {:induction false} SweepKeepsBullets(todo: seq<Asteroid>, bullets: seq<Bullet>, rules: Rules, next: nat)
    ensures var r := SweepFrom(todo, bullets, rules, next);
      multiset(r.bullets) + multiset(r.spent) == multiset(bullets)
    decreases |todo|
  {
    if todo != [] {
      var a := rules.move(todo[0]);
      var hit := FirstHit(a, bullets, rules.hits);
      if rules.crashes(a) {
        SweepCrashStep(todo, bullets, rules, next);
      } else if hit.None? {
        SweepSurviveStep(todo, bullets, rules, next);
        SweepKeepsBullets(todo[1..], bullets, rules, next);
      } else {
        SweepDestroyStep(todo, bullets, rules, next, hit.value);
        SweepKeepsBullets(todo[1..], RemoveAt(bullets, hit.value), rules, Fragments(rules, a, next).1);
      }
    }
  }

  /** No asteroid the pass kept is touched by an active bullet it left over,
      apart from the asteroid that hit the ship, which is never tested
      against the bullets. */
  ghost predicate Untouched(r: Sweep, hits: (Asteroid, Bullet) -> bool) {
    forall i, b :: 0 <= i < |r.kept| && !(r.crashed && i == |r.kept| - 1) && b in r.bullets ==>
      !(b.active && hits(r.kept[i], b))
  }

  /** The converse of the bullet rule: an asteroid survives the pass only if
      no bullet still active at the end touches it. */
  lemma {:induction false} SweepUntouched(todo: seq<Asteroid>, bullets: seq<Bullet>, rules: Rules, next: nat)
    ensures Untouched(SweepFrom(todo, bullets, rules, next), rules.hits)
    decreases |todo|
  {
    if todo != [] {
      var a := rules.move(todo[0]);
      var hit := FirstHit(a, bullets, rules.hits);
      if rules.crashes(a) {
        SweepCrashStep(todo, bullets, rules, next);
      } else if hit.None? {
        SweepSurviveStep(todo, bullets, rules, next);
        var s := SweepFrom(todo[1..], bullets, rules, next);
        SweepUntouched(todo[1..], bullets, rules, next);
        SweepKeepsBullets(todo[1..], bullets, rules, next);
        forall b | b in s.bullets
          ensures b in bullets
        {
          assert b in multiset(s.bullets);
          assert b in multiset(s.bullets) + multiset(s.spent);
          assert b in multiset(bullets);
        }
      } else {
        SweepDestroyStep(todo, bullets, rules, next, hit.value);
        SweepUntouched(todo[1..], RemoveAt(bullets, hit.value), rules, Fragments(rules, a, next).1);
      }
    }
  }

  /** Pairs each destroyed asteroid with the bullet spent on it: the bullet
      was active and touched the asteroid. */
  predicate Paid(destroyed: seq<Asteroid>, spent: seq<Bullet>, hits: (Asteroid, Bullet) -> bool)
    decreases |destroyed|
  {
    && |destroyed| == |spent|
    && (destroyed != [] ==>
         && spent[0].active && hits(destroyed[0], spent[0])
         && Paid(destroyed[1..], spent[1..], hits))
  }

  /** Paid, position by position. */
  lemma {:induction false} PaidEach(destroyed: seq<Asteroid>, spent: seq<Bullet>, hits: (Asteroid, Bullet) -> bool)
    requires Paid(destroyed, spent, hits)
    ensures forall i :: 0 <= i < |destroyed| ==> spent[i].active && hits(destroyed[i], spent[i])
    decreases |destroyed|
  {
    if destroyed != [] {
      PaidEach(destroyed[1..], spent[1..], hits);
      assert forall i :: 1 <= i < |destroyed| ==> destroyed[i] == destroyed[1..][i - 1] && spent[i] == spent[1..][i - 1];
    }
  }

  /** Each destroyed asteroid was touched by the active bullet spent on it. */
  lemma {:induction false} SweepSpendsBullets(todo: seq<Asteroid>, bullets: seq<Bullet>, rules: Rules, next: nat)
    ensures var r := SweepFrom(todo, bullets, rules, next);
      Paid(r.destroyed, r.spent, rules.hits)
    decreases |todo|
  {
    if todo != [] {
      var a := rules.move(todo[0]);
      var hit := FirstHit(a, bullets, rules.hits);
      if rules.crashes(a) {
        SweepCrashStep(todo, bullets, rules, next);
      } else if hit.None? {
        SweepSurviveStep(todo, bullets, rules, next);
        SweepSpendsBullets(todo[1..], bullets, rules, next);
      } else {
        var j := hit.value;
        var n1 := Fragments(rules, a, next).1;
        SweepDestroyStep(todo, bullets, rules, next, j);
        SweepSpendsBullets(todo[1..], RemoveAt(bullets, j), rules, n1);
        var s := SweepFrom(todo[1..], RemoveAt(bullets, j), rules, n1);
        assert ([a] + s.destroyed)[1..] == s.destroyed;
        assert ([bullets[j]] + s.spent)[1..] == s.spent;
      }
    }
  }

  /** The fragments of the pass are two per destroyed asteroid above the
      smallest tier, in order, and none for the smallest. */
  lemma {:induction false} SweepOffspring(todo: seq<Asteroid>, bullets: seq<Bullet>, rules: Rules, next: nat)
    requires SplitsInTwo(rules)
    ensures var r := SweepFrom(todo, bullets, rules, next);
      Offspring(r.destroyed, r.born)
    decreases |todo|
  {
    if todo != [] {
      var a := rules.move(todo[0]);
      var hit := FirstHit(a, bullets, rules.hits);
      if rules.crashes(a) {
        SweepCrashStep(todo, bullets, rules, next);
      } else if hit.None? {
        SweepSurviveStep(todo, bullets, rules, next);
        SweepOffspring(todo[1..], bullets, rules, next);
      } else {
        var j := hit.value;
        var f := Fragments(rules, a, next);
        SweepDestroyStep(todo, bullets, rules, next, j);
        SweepOffspring(todo[1..], RemoveAt(bullets, j), rules, f.1);
        var s := SweepFrom(todo[1..], RemoveAt(bullets, j), rules, f.1);
        assert ([a] + s.destroyed)[1..] == s.destroyed;
        assert (f.0 + s.born)[|f.0|..] == s.born;
      }
    }
  }

  /** Without a crash no survivor touches the ship. */
  lemma {:induction false} SweepSafe(todo: seq<Asteroid>, bullets: seq<Bullet>, rules: Rules, next: nat)
    ensures var r := SweepFrom(todo, bullets, rules, next);
      !r.crashed ==> forall i :: 0 <= i < |r.kept| ==> !rules.crashes(r.kept[i])
    decreases |todo|
  {
    if todo != [] {
      var a := rules.move(todo[0]);
      var hit := FirstHit(a, bullets, rules.hits);
      if rules.crashes(a) {
        SweepCrashStep(todo, bullets, rules, next);
      } else if hit.None? {
        SweepSurviveStep(todo, bullets, rules, next);
        SweepSafe(todo[1..], bullets, rules, next);
        var s := SweepFrom(todo[1..], bullets, rules, next);
        assert forall i :: 1 <= i < |s.kept| + 1 ==> ([a] + s.kept)[i] == s.kept[i - 1];
      } else {
        SweepDestroyStep(todo, bullets, rules, next, hit.value);
        SweepSafe(todo[1..], RemoveAt(bullets, hit.value), rules, Fragments(rules, a, next).1);
      }
    }
  }

  /** After a crash the crashing asteroid is the last survivor, and the
      asteroids behind it in the snapshot are left exactly as they were:
      neither moved nor tested. */
  lemma SweepCrash(todo: seq<Asteroid>, bullets: seq<Bullet>, rules: Rules, next: nat)
    ensures var r := SweepFrom(todo, bullets, rules, next);
      r.crashed ==> 0 < |r.kept| && rules.crashes(r.kept[|r.kept| - 1])
    ensures var r := SweepFrom(todo, bullets, rules, next);
      r.crashed ==> r.rest == todo[|todo| - |r.rest|..]
  {
    SweepCrashLast(todo, bullets, rules, next);
    SweepCrashRest(todo, bullets, rules, next);
  }

  lemma {:induction false} SweepCrashLast(todo: seq<Asteroid>, bullets: seq<Bullet>, rules: Rules, next: nat)
    ensures var r := SweepFrom(todo, bullets, rules, next);
      r.crashed ==> 0 < |r.kept| && rules.crashes(r.kept[|r.kept| - 1])
    decreases |todo|
  {
    if todo != [] {
      var a := rules.move(todo[0]);
      var hit := FirstHit(a, bullets, rules.hits);
      if rules.crashes(a) {
        SweepCrashStep(todo, bullets, rules, next);
      } else if hit.None? {
        SweepSurviveStep(todo, bullets, rules, next);
        SweepCrashLast(todo[1..], bullets, rules, next);
        var s := SweepFrom(todo[1..], bullets, rules, next);
        if s.crashed {
          assert ([a] + s.kept)[|s.kept|] == s.kept[|s.kept| - 1];
        }
      } else {
        SweepDestroyStep(todo, bullets, rules, next, hit.value);
        SweepCrashLast(todo[1..], RemoveAt(bullets, hit.value), rules, Fragments(rules, a, next).1);
      }
    }
  }

  lemma {:induction false} SweepCrashRest(todo: seq<Asteroid>, bullets: seq<Bullet>, rules: Rules, next: nat)
    ensures var r := SweepFrom(todo, bullets, rules, next);
      r.crashed ==> r.rest == todo[|todo| - |r.rest|..]
    decreases |todo|
  {
    if todo != [] {
      var a := rules.move(todo[0]);
      var hit := FirstHit(a, bullets, rules.hits);
      if rules.crashes(a) {
        SweepCrashStep(todo, bullets, rules, next);
      } else if hit.None? {
        SweepSurviveStep(todo, bullets, rules, next);
        SweepCrashRest(todo[1..], bullets, rules, next);
        var s := SweepFrom(todo[1..], bullets, rules, next);
        assert todo[1..][|todo| - 1 - |s.rest|..] == todo[|todo| - |s.rest|..];
      } else {
        var n1 := Fragments(rules, a, next).1;
        SweepDestroyStep(todo, bullets, rules, next, hit.value);
        SweepCrashRest(todo[1..], RemoveAt(bullets, hit.value), rules, n1);
        var s := SweepFrom(todo[1..], RemoveAt(bullets, hit.value), rules, n1);
        assert todo[1..][|todo| - 1 - |s.rest|..] == todo[|todo| - |s.rest|..];
      }
    }
  }

  /** Under sound rules the pass keeps everything valid: survivors,
      destroyed asteroids, fragments, unreached asteroids and bullets. */
  lemma {:induction false} SweepValid(todo: seq<Asteroid>, bullets: seq<Bullet>, rules: Rules, next: nat, w: int, h: int)
    requires MovesSoundly(rules, w, h) && SplitsSoundly(rules, w, h)
    requires forall i :: 0 <= i < |todo| ==> Asteroids.Valid(todo[i], w, h)
    requires forall i :: 0 <= i < |bullets| ==> Bullets.Valid(bullets[i], w, h)
    ensures var r := SweepFrom(todo, bullets, rules, next);
      && (forall i :: 0 <= i < |r.kept| ==> Asteroids.Valid(r.kept[i], w, h))
      && (forall i :: 0 <= i < |r.destroyed| ==> Asteroids.Valid(r.destroyed[i], w, h))
      && (forall i :: 0 <= i < |r.born| ==> Asteroids.Valid(r.born[i], w, h))
      && (forall i :: 0 <= i < |r.rest| ==> Asteroids.Valid(r.rest[i], w, h))
      && (forall i :: 0 <= i < |r.bullets| ==> Bullets.Valid(r.bullets[i], w, h))
    decreases |todo|
  {
    if todo != [] {
      var a := rules.move(todo[0]);
      var hit := FirstHit(a, bullets, rules.hits);
      assert Asteroids.Valid(a, w, h);
      if rules.crashes(a) {
        SweepCrashStep(todo, bullets, rules, next);
      } else if hit.None? {
        SweepSurviveStep(todo, bullets, rules, next);
        SweepValid(todo[1..], bullets, rules, next, w, h);
      } else {
        var f := Fragments(rules, a, next);
        var b1 := RemoveAt(bullets, hit.value);
        SweepDestroyStep(todo, bullets, rules, next, hit.value);
        assert forall i :: 0 <= i < |f.0| ==> Asteroids.Valid(f.0[i], w, h);
        SweepValid(todo[1..], b1, rules, f.1, w, h);
      }
    }
  }

  /** The pass of one tick of a running game: the ship moves, then the
      bullets, then the asteroids are swept against the moved ship. */
  function Tick(g: Game, t: Trig, d: Dice): Sweep
    requires 0 < g.w && 0 < g.h
  {
    var rules := TickRules(Ships.Step(g.ship, g.w, g.h, t), g.w, g.h, t, d);
    SweepFrom(g.asteroids, MoveBullets(g.bullets, g.w, g.h, t), rules, 0)
  }

  /** Update: nothing once the game is over; otherwise one tick, ending the
      game on a crash and starting the next level's wave when no asteroid is
      left. */
  function Update(g: Game, t: Trig, d: Dice): (r: Game)
    requires 0 < g.w && 0 < g.h
    ensures g.over ==> r == g
    ensures r.w == g.w && r.h == g.h
    ensures !g.over ==> r.ship == Ships.Step(g.ship, g.w, g.h, t)
    ensures !g.over ==> r.level == g.level || r.level == g.level + 1
  {
    if g.over then g
    else
      var ship := Ships.Step(g.ship, g.w, g.h, t);
      var s := Tick(g, t, d);
      var score := g.score + Bounty(s.destroyed);
      if s.crashed then
        Game(g.w, g.h, ship, s.kept + s.rest + s.born, s.bullets, true, score, g.level)
      else if s.kept + s.born == [] then
        var level := g.level + 1;
        Game(g.w, g.h, ship, Wave(WaveSize(level), ship.pos, d, s.next).0, s.bullets, false, score, level)
      else
        Game(g.w, g.h, ship, s.kept + s.born, s.bullets, false, score, g.level)
  }

  /** The three ways a tick of a running game ends. The ship has moved and
      the surviving bullets and the points are taken in every case. On a
      crash the game is over at the same level, and the list holds the
      survivors up to the crashing asteroid, the unreached ones and the
      fragments. When every asteroid is gone the level goes up by one and
      the next level's wave, placed around the moved ship, is the new list.
      Otherwise the list is the survivors followed by the fragments. */
  lemma UpdateOutcome(g: Game, t: Trig, d: Dice)
    requires 0 < g.w && 0 < g.h
    requires !g.over
    ensures var r, s := Update(g, t, d), Tick(g, t, d);
      && r.ship == Ships.Step(g.ship, g.w, g.h, t)
      && r.bullets == s.bullets
      && r.score == g.score + Bounty(s.destroyed)
    ensures var r, s := Update(g, t, d), Tick(g, t, d);
      s.crashed ==> r.over && r.level == g.level && r.asteroids == s.kept + s.rest + s.born
    ensures var r, s := Update(g, t, d), Tick(g, t, d);
      !s.crashed && s.kept + s.born == [] ==>
        && !r.over && r.level == g.level + 1
        && r.asteroids == Wave(WaveSize(g.level + 1), r.ship.pos, d, s.next).0
    ensures var r, s := Update(g, t, d), Tick(g, t, d);
      !s.crashed && s.kept + s.born != [] ==>
        !r.over && r.level == g.level && r.asteroids == s.kept + s.born
  {
  }

  lemma AllValid(x: seq<Asteroid>, y: seq<Asteroid>, w: int, h: int)
    requires forall i :: 0 <= i < |x| ==> Asteroids.Valid(x[i], w, h)
    requires forall i :: 0 <= i < |y| ==> Asteroids.Valid(y[i], w, h)
    ensures forall i :: 0 <= i < |x + y| ==> Asteroids.Valid((x + y)[i], w, h)
  {
    assert forall i :: |x| <= i < |x + y| ==> (x + y)[i] == y[i - |x|];
  }

  /** Update on a valid game with a fair random source gives a valid game. */
  lemma UpdateKeepsValid(g: Game, t: Trig, d: Dice)
    requires Valid(g)
    requires Fair(d, g.w, g.h)
    ensures Valid(Update(g, t, d))
  {
    if !g.over {
      var w, h := g.w, g.h;
      var ship := Ships.Step(g.ship, w, h, t);
      Ships.StepKeepsValid(g.ship, w, h, t);
      var bs := MoveBullets(g.bullets, w, h, t);
      MoveBulletsValid(g.bullets, w, h, t);
      var rules := TickRules(ship, w, h, t, d);
      SweepValid(g.asteroids, bs, rules, 0, w, h);
      SweepCrash(g.asteroids, bs, rules, 0);
      var s := SweepFrom(g.asteroids, bs, rules, 0);
      assert s == Tick(g, t, d);
      UpdateOutcome(g, t, d);
      var r := Update(g, t, d);
      assert Bounty(s.destroyed) >= 0;
      AllValid(s.kept, s.born, w, h);
      if s.crashed {
        AllValid(s.kept, s.rest, w, h);
        AllValid(s.kept + s.rest, s.born, w, h);
        assert 0 < |r.asteroids|;
      } else if s.kept + s.born == [] {
        WaveValid(WaveSize(g.level + 1), ship.pos, d, s.next, w, h);
        assert 0 < |r.asteroids|;
      }
      assert forall i :: 0 <= i < |r.asteroids| ==> Asteroids.Valid(r.asteroids[i], w, h);
      assert Valid(r);
    }
  }

  /** The asteroid list is never empty after an Update of a game that had
      asteroids: a crash keeps the crashing asteroid, and an emptied list is
      refilled with the next level's wave. */
  lemma UpdateNonEmpty(g: Game, t: Trig, d: Dice)
    requires 0 < g.w && 0 < g.h
    requires 0 < |g.asteroids| && FirstLevel <= g.level
    ensures 0 < |Update(g, t, d).asteroids|
  {
    if !g.over {
      var ship := Ships.Step(g.ship, g.w, g.h, t);
      var rules := TickRules(ship, g.w, g.h, t, d);
      SweepCrash(g.asteroids, MoveBullets(g.bullets, g.w, g.h, t), rules, 0);
    }
  }

  /** The score of a tick: each destroyed asteroid adds its tier's points,
      consuming exactly one bullet that touched it, and no bullet serves two
      asteroids; on a valid game the score never drops. */
  lemma UpdateScore(g: Game, t: Trig, d: Dice)
    requires 0 < g.w && 0 < g.h
    requires !g.over
    ensures var s := Tick(g, t, d);
      Update(g, t, d).score == g.score + Bounty(s.destroyed)
    ensures var s := Tick(g, t, d);
      |Update(g, t, d).bullets| + |s.destroyed| == |MoveBullets(g.bullets, g.w, g.h, t)|
    ensures var s := Tick(g, t, d);
      multiset(Update(g, t, d).bullets) + multiset(s.spent) == multiset(MoveBullets(g.bullets, g.w, g.h, t))
    ensures var s := Tick(g, t, d);
      forall i :: 0 <= i < |s.destroyed| ==> s.spent[i].active && HitsBullet(s.destroyed[i], s.spent[i])
    ensures Valid(g) && Fair(d, g.w, g.h) ==> Update(g, t, d).score >= g.score + 200 * |Tick(g, t, d).destroyed|
  {
    var ship := Ships.Step(g.ship, g.w, g.h, t);
    var bs := MoveBullets(g.bullets, g.w, g.h, t);
    var rules := TickRules(ship, g.w, g.h, t, d);
    UpdateOutcome(g, t, d);
    SweepKeepsBullets(g.asteroids, bs, rules, 0);
    SweepSpendsBullets(g.asteroids, bs, rules, 0);
    var s := SweepFrom(g.asteroids, bs, rules, 0);
    PaidEach(s.destroyed, s.spent, rules.hits);
    if Valid(g) && Fair(d, g.w, g.h) {
      MoveBulletsValid(g.bullets, g.w, g.h, t);
      SweepValid(g.asteroids, bs, rules, 0, g.w, g.h);
    }
  }

  /** A tick ends the game exactly when a moved asteroid reaches the moved
      ship: then the last survivor is the one that reached it and the
      asteroids after it are untouched; otherwise no survivor touches the
      ship and the game goes on. */
  lemma UpdateCollision(g: Game, t: Trig, d: Dice)
    requires 0 < g.w && 0 < g.h
    requires !g.over
    ensures var r, s := Update(g, t, d), Tick(g, t, d);
      s.crashed ==> && r.over && 0 < |s.kept| && HitsShip(s.kept[|s.kept| - 1], r.ship)
                    && s.rest == g.asteroids[|g.asteroids| - |s.rest|..]
    ensures var r, s := Update(g, t, d), Tick(g, t, d);
      !s.crashed ==> !r.over && forall i :: 0 <= i < |s.kept| ==> !HitsShip(s.kept[i], r.ship)
    ensures var r, s := Update(g, t, d), Tick(g, t, d);
      !s.crashed ==> forall i, b :: 0 <= i < |s.kept| && b in r.bullets ==> !(b.active && HitsBullet(s.kept[i], b))
  {
    var ship := Ships.Step(g.ship, g.w, g.h, t);
    var bs := MoveBullets(g.bullets, g.w, g.h, t);
    var rules := TickRules(ship, g.w, g.h, t, d);
    SweepCrash(g.asteroids, bs, rules, 0);
    SweepSafe(g.asteroids, bs, rules, 0);
    var s := SweepFrom(g.asteroids, bs, rules, 0);
    assert s == Tick(g, t, d);
    UpdateOutcome(g, t, d);
    assert forall a :: rules.crashes(a) == HitsShip(a, ship);
    TickUntouched(g, t, d);
  }

  /** The Tick sweep of a game, read through the game's own bullet test. */
  lemma TickUntouched(g: Game, t: Trig, d: Dice)
    requires 0 < g.w && 0 < g.h
    ensures var s := Tick(g, t, d);
      !s.crashed ==> forall i, b :: 0 <= i < |s.kept| && b in s.bullets ==> !(b.active && HitsBullet(s.kept[i], b))
  {
    var ship := Ships.Step(g.ship, g.w, g.h, t);
    var bs := MoveBullets(g.bullets, g.w, g.h, t);
    var rules := TickRules(ship, g.w, g.h, t, d);
    SweepUntouched(g.asteroids, bs, rules, 0);
    assert SweepFrom(g.asteroids, bs, rules, 0) == Tick(g, t, d);
    assert forall a, b :: rules.hits(a, b) == HitsBullet(a, b);
  }

  /** How many of `destroyed` are above the smallest tier. */
  function Breakable(destroyed: seq<Asteroid>): nat {
    if destroyed == [] then 0
    else (if destroyed[0].size > 0 then 1 else 0) + Breakable(destroyed[1..])
  }

  /** Two fragments for each breakable destroyed asteroid, none otherwise. */
  lemma {:induction false} OffspringCount(destroyed: seq<Asteroid>, born: seq<Asteroid>)
    requires Offspring(destroyed, born)
    ensures |born| == 2 * Breakable(destroyed)
    decreases |destroyed|
  {
    if destroyed != [] {
      if destroyed[0].size > 0 {
        OffspringCount(destroyed[1..], born[2..]);
      } else {
        OffspringCount(destroyed[1..], born);
      }
    }
  }

  /** The fragments a tick adds are SpawnSplitAsteroids' pairs, in order: two
      of the next tier at the destroyed asteroid's place for each destroyed
      asteroid above the smallest tier. When the game goes on without a new
      wave, the list shrinks by the destroyed asteroids and grows by their
      fragments. */
  lemma UpdateSplits(g: Game, t: Trig, d: Dice)
    requires 0 < g.w && 0 < g.h
    requires !g.over
    ensures var s := Tick(g, t, d);
      && Offspring(s.destroyed, s.born)
      && |s.born| == 2 * Breakable(s.destroyed)
    ensures var r, s := Update(g, t, d), Tick(g, t, d);
      !s.crashed && s.kept + s.born != [] ==>
        |r.asteroids| == |g.asteroids| - |s.destroyed| + 2 * Breakable(s.destroyed)
  {
    var ship := Ships.Step(g.ship, g.w, g.h, t);
    var bs := MoveBullets(g.bullets, g.w, g.h, t);
    var rules := TickRules(ship, g.w, g.h, t, d);
    SweepOffspring(g.asteroids, bs, rules, 0);
    var s := SweepFrom(g.asteroids, bs, rules, 0);
    OffspringCount(s.destroyed, s.born);
    UpdateOutcome(g, t, d);
  }

  /** When a tick leaves no asteroid, the new list is the next level's wave:
      WaveSize of the new level large asteroids, and on a fair random source
      each at least SpawnClearance away from the moved ship. */
  lemma UpdateNextLevel(g: Game, t: Trig, d: Dice)
    requires 0 < g.w && 0 < g.h
    requires !g.over && FirstLevel <= g.level
    ensures var r, s := Update(g, t, d), Tick(g, t, d);
      !s.crashed && s.kept + s.born == [] ==>
        && r.level == g.level + 1
        && |r.asteroids| == WaveSize(r.level)
        && (forall i :: 0 <= i < |r.asteroids| ==> r.asteroids[i].size == Largest)
        && (Fair(d, g.w, g.h) ==> forall i :: 0 <= i < |r.asteroids| ==>
              Dist2(r.asteroids[i].pos, r.ship.pos) >= SpawnClearance * SpawnClearance)
    ensures var r, s := Update(g, t, d), Tick(g, t, d);
      r.level == g.level + 1 <==> !s.crashed && s.kept + s.born == []
  {
    UpdateOutcome(g, t, d);
    var r, s := Update(g, t, d), Tick(g, t, d);
    if !s.crashed && s.kept + s.born == [] && Fair(d, g.w, g.h) {
      WaveValid(WaveSize(g.level + 1), r.ship.pos, d, s.next, g.w, g.h);
    }
  }
}
