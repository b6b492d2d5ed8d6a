# Asteroids: a Dafny model of the game core and its self-playing agent

This project models the game logic of a small Asteroids clone, plus the
agent that plays it and collects examples for its own training.

- The **game** has a ship, bullets and asteroids on a w-by-h toroidal field.
  - The ship turns, thrusts and drifts under drag.
  - Bullets fly straight for sixty ticks.
  - Asteroids come in three size tiers and split in two when shot.
  - The player earns 200, 300 or 400 points per asteroid, depending on its
    tier.
  - A wave of large asteroids appears at least 100 units from the ship
    whenever the field has been cleared.
- The **agent** runs as an epsilon-greedy player.
  - It encodes the game in 21 numbers.
  - It either explores (a random action) or asks a trained policy.
  - It records (state, action, reward) examples.
  - At the end of every game it stamps the game's outcome onto them.
  - Every hundred games it trains, and after a thousand games it stops.

Modules, one per file, in dependency order:

| file | module | what it holds |
|---|---|---|
| geometry.dfy | Geometry | points, squared distance, C#'s floating `%`, toroidal wrap, cos/sin/sqrt as parameters |
| options.dfy | Options | `Option` and `Result` |
| chance.dfy | Chance | the random source as an oracle (`Dice`) and its fairness conditions |
| ships.dfy | Ships | the ship and its control flags |
| bullets.dfy | Bullets | bullets and their lifetime |
| asteroids.dfy | Asteroids | asteroids, their tiers and the circle tests |
| spawns.dfy | Spawns | asteroid splitting and level waves |
| games.dfy | Games | the game: reset, input, actions, and the tick with its asteroid pass |
| encoding.dfy | Encoding | the 21-value state vector |
| aiplayer.dfy | AIPlayers | the training and playing agent |

Modelling choices:

- **Numbers.** Floating point is modelled as `real`.
- **Trigonometry and square root.** Cosine, sine and square root are
  parameters (`Trig`). Cosine and sine are clamped into [-1, 1]. Results that
  compare a square root with a bound assume `ExactSqrt`, that is, an exact
  non-negative root. The circle tests compare squared distances, and
  `Asteroids.CollisionsMatchDistance` proves that these decide the same thing
  as the source's `sqrt(...) < r`.
- **Randomness.** The game's `System.Random` is unseeded, so the random
  values are an oracle (`Dice`). The agent's own generator is
  `new Random(42)`, seeded, but its draws are parameters as well: the
  exploration draw and the random action of each step arrive in a `Roll`.
  - `Dice` is indexed by a cursor of draw events.
  - The spawn loop is a single event, whose outcome is the point it
    accepts.
  - Properties that need real random values assume `Uniform` (draws in
    [0, 1)) or `Fair` (in addition, every accepted spawn point is on the
    field and clear of the ship).
- **The asteroid pass is generic.** The asteroid loop of `Game.Update` is
  `Games.SweepFrom`. It runs over `Rules`: how an asteroid moves, whether
  it crashes, whether a bullet hits it, and how it splits. `Games.TickRules`
  instantiates these rules with the game's own functions. This lets the
  pass lemmas be stated once, free of arithmetic.
- **The agent's learner is abstract.** It is a `Trainer`: `fit` builds a
  model from examples and `predict` maps a model and a state to an action
  id. One agent update receives a `Roll`:
  - the dice for a reset;
  - the dice for the tick;
  - the exploration draw;
  - the draw for a random action.
- **Missing prediction engine.** When the source would dereference a
  missing prediction engine, `AIPlayers.UpdateAIPlay` returns
  `Err(NoPredictor)`.

Behaviour of the code worth noting, which the model follows:

- **Score.** Destroying an asteroid scores `(4 - size) * 100`, which is 400
  for small, 300 for medium and 200 for large asteroids.
- **Sort stability.** `GetGameState` sorts with `List.Sort`, which is not
  stable. Asteroids at equal distance may therefore appear in any order.
  - `Encoding.GetGameState` uses one stable order.
  - Every lemma about the layout holds for any nearest-first order
    (`Encoding.NearestFirst`).
- **Playing without a model.** `StartPlaying` sets the playing flag even
  when no model was loaded.
- **Overwritten rewards.** At the end of a game, the outcome reward
  overwrites every buffered example, including examples from earlier games
  in the same hundred. The immediate rewards from `CalculateReward` never
  reach training.
- **Unreachable clear reward.** The "+10 for clearing the level" branch
  cannot be taken. A reset game has asteroids, and a tick that clears the
  field spawns the next wave in the same tick. So after any step of the
  agent the game still has an asteroid, and a game that is over or empty
  there ended in a crash (`AIPlayers.ClearRewardUnreachable`).

## Model

| member | source | states |
|---|---|---|
| Geometry.Cos | src/Asteroids/Ship.cs:38 | the cosine used for headings lies in [-1, 1] |
| Geometry.Sin | src/Asteroids/Ship.cs:39 | the sine used for headings lies in [-1, 1] |
| Geometry.SqrtCompare | src/Asteroids/Asteroid.cs:93-97 | with an exact root, `sqrt(d2) < r` holds exactly when `d2 < r*r`, for non-negative `r` |
| Geometry.FMod | src/Asteroids/Ship.cs:48-49 | C#'s `%` on floats: the remainder differs from the dividend by a whole multiple of the divisor and keeps the dividend's sign, in [0, m) for a non-negative dividend and in (-m, 0] for a negative one, which fixes it uniquely |
| Geometry.FModSmall | src/Asteroids/Ship.cs:48-49 | below three divisors, the remainder subtracts exactly 0, 1 or 2 divisors |
| Geometry.Wrap | src/Asteroids/Ship.cs:48-49 | `(p + d + extent) % extent` lands in [0, extent) whenever `p + d + extent` is non-negative |
| Geometry.WrapToroidal | src/Asteroids/Asteroid.cs:71-74 | a move inside the field is kept; a move off one edge by less than one extent re-enters from the opposite edge |
| Geometry.Along | src/Asteroids/Asteroid.cs:68-69 | the displacement `(cos a, sin a) * dist` has both components within `dist` |
| Geometry.Move | src/Asteroids/Bullet.cs:30-33 | a point on the field, moved by less than one extent per axis and wrapped, stays on the field |
| Ships.NewShip | src/Asteroids/Ship.cs:16-24 | a new ship stands at the given point, points up (-pi/2), is at rest and has no control held |
| Ships.SetFlag | src/Asteroids/Ship.cs:88-93 | each setter switches its own control and leaves every other control, the position, heading and velocity unchanged |
| Ships.Step | src/Asteroids/Ship.cs:26-51 | controls are unchanged; the heading turns by 0.1 for exactly one held rotation and stays put for neither or both; thrust adds 0.15 along the new heading before the 0.99 drag; the position moves by the new velocity, wrapped |
| Ships.VelocityBounded | src/Asteroids/Ship.cs:35-44 | thrust and drag never take a velocity component outside [-14.85, 14.85] |
| Ships.StepStaysInField | src/Asteroids/Ship.cs:47-50 | on a field wider and taller than 14.85, a ship on the field stays on it |
| Ships.StepKeepsValid | src/Asteroids/Ship.cs:26-51 | the ship invariant (on the field, bounded speed) holds after every update |
| Bullets.NewBullet | src/Asteroids/Bullet.cs:13-23 | a bullet starts active with lifetime 60 and the ship's heading, 20 units ahead of the ship along that heading |
| Bullets.FiredNearField | src/Asteroids/Bullet.cs:16-19 | a bullet fired from a ship on the field starts within 20 units of the field |
| Bullets.Step | src/Asteroids/Bullet.cs:25-41 | an inactive bullet never changes; an active one keeps its heading, moves Speed (7) along it wrapped, loses one tick of lifetime, and stays active exactly while lifetime remains |
| Bullets.Countdown | src/Asteroids/Bullet.cs:36-40 | an active bullet with lifetime L stays active for L-1 updates and is inactive after L |
| Bullets.InactiveStays | src/Asteroids/Bullet.cs:27 | an inactive bullet is unchanged by any number of updates |
| Bullets.FreshBulletLifetime | src/Asteroids/Bullet.cs:11-40 | a fired bullet is still active after 59 updates and inactive after 60 |
| Bullets.StepLandsInField | src/Asteroids/Bullet.cs:30-33 | a bullet near the field lands on the field after one update |
| Asteroids.NewAsteroid | src/Asteroids/Asteroid.cs:13-45 | the constructor keeps position and size, sets radius 10/20/40 per tier and 0 outside the tiers, keeps given speed and angle, draws missing ones in [0.5, 2.5) and [0, 2pi), and consumes the outline draws |
| Asteroids.Step | src/Asteroids/Asteroid.cs:65-75 | only the position changes: it moves by speed along the fixed heading, wrapped |
| Asteroids.StepStaysInField | src/Asteroids/Asteroid.cs:71-74 | an asteroid on the field moving less than one extent per tick stays on the field |
| Asteroids.CollisionsMatchDistance | src/Asteroids/Asteroid.cs:91-107 | the squared-distance tests decide the same as the bullet test `distance < Radius` and the ship test `distance < Radius + 10`; the ship-side test of Ship.CollidesWith agrees with the asteroid side |
| Asteroids.StepKeepsValid | src/Asteroids/Asteroid.cs:65-75 | tier, radius, speed below 3 and on-field position are preserved by an update |
| Spawns.Child | src/Asteroids/Game.cs:118-129 | a fragment is one tier smaller, at the parent's position, with its tier's radius, speed in [1, 3) and heading in [0, 2pi) |
| Spawns.Split | src/Asteroids/Game.cs:116-131 | splitting yields exactly two fragments of the parent |
| Spawns.SplitValid | src/Asteroids/Game.cs:116-131 | fragments of a valid asteroid above the smallest tier are valid asteroids |
| Spawns.Wave | src/Asteroids/Game.cs:100-114 | a wave of n is n large asteroids (none for n <= 0) |
| Spawns.WaveValid | src/Asteroids/Game.cs:102-112 | with a fair source every wave asteroid is valid and at least 100 from the ship |
| Games.PointsByTier | src/Asteroids/Game.cs:63 | an asteroid of size s scores (4 - s) * 100: 200 large, 300 medium, 400 small |
| Games.Bounty | src/Asteroids/Game.cs:63 | destroying n asteroids of known tiers scores at least 200 n |
| Games.SpawnRoom | src/Asteroids/Game.cs:102-112 | around the ship at the centre, the spawn loop has a cell to accept exactly when (w / 2)² + (h / 2)² is at least 10000; on a smaller field the loop never ends and no random source is fair for it |
| Games.Fresh | src/Asteroids/Game.cs:14-30 | a new game has the ship at the centre, no bullets, score 0, level 1, not over, and five large asteroids |
| Games.Reset | src/Asteroids/Game.cs:21-30 | a reset keeps the field and restarts: centred ship, no bullets, score 0, level 1, five large asteroids |
| Games.FreshValid | src/Asteroids/Game.cs:21-30 | with a fair source a new game satisfies the game invariant and every asteroid starts at least 100 from the ship |
| Games.Shoot | src/Asteroids/Game.cs:133-136 | shooting appends exactly one bullet, fired from the ship's position and heading, and changes nothing else |
| Games.ShootKeepsValid | src/Asteroids/Game.cs:133-136 | shooting keeps the game invariant |
| Games.PerformAction | src/Asteroids/Game.cs:219-242 | action 0 releases every control, 1 to 3 hold thrust, left and right without touching the others, 4 fires one bullet and leaves the ship alone, any other id changes nothing; no action moves the ship |
| Games.PerformActionKeepsValid | src/Asteroids/Game.cs:219-242 | every action keeps the game invariant |
| Games.HandleKeyDown | src/Asteroids/Game.cs:138-155 | Left, Right and Up hold their control, Space shoots, any other key changes nothing |
| Games.HandleKeyUp | src/Asteroids/Game.cs:157-171 | Left, Right and Up switch off exactly their control (rotate left, rotate right, thrust), every other flag and the ship's motion are kept, nothing else in the game changes, and any other key changes nothing |
| Games.KeysKeepValid | src/Asteroids/Game.cs:138-171 | key handling keeps the game invariant |
| Games.MoveBullets | src/Asteroids/Game.cs:38-45 | the bullet phase adds no bullet and every bullet it keeps is active |
| Games.MoveBulletsValid | src/Asteroids/Game.cs:38-45 | valid bullets stay valid through the bullet phase, and as many survive as had lifetime above 1 |
| Games.MoveBulletsSteps | src/Asteroids/Game.cs:38-45 | on active bullets the bullet phase is exactly: every bullet with lifetime above 1, in its original order, moved once; every other bullet is dropped |
| Games.FirstHit | src/Asteroids/Game.cs:59-74 | the bullet chosen is the first active bullet touching the asteroid; none is chosen exactly when no active bullet touches it |
| Games.TickRules | src/Asteroids/Game.cs:47-75 | the game's rules for the pass (Asteroid.Update, both CollidesWith tests against the moved ship, SpawnSplitAsteroids) break every asteroid into two of its fragments and, on a field of at least 3 by 3 with a fair source, keep moved asteroids and fragments of non-smallest asteroids valid |
| Games.SweepFrom | src/Asteroids/Game.cs:47-75 | every asteroid of the snapshot is kept, destroyed or left unreached, one bullet is spent per destroyed asteroid, and only a crash leaves asteroids unreached |
| Games.SweepCrashStep | src/Asteroids/Game.cs:52-56 | unfolding of the crash branch of the pass: an asteroid reaching the ship ends the pass with it as the last survivor |
| Games.SweepSurviveStep | src/Asteroids/Game.cs:59-74 | unfolding of the survive branch of the pass: an asteroid no bullet touches survives, moved |
| Games.SweepDestroyStep | src/Asteroids/Game.cs:59-74 | unfolding of the hit branch of the pass: an asteroid touched by a bullet is destroyed, the bullet removed, and its fragments appended |
| Games.SweepKeepsAsteroids | src/Asteroids/Game.cs:47-75 | the survivors, destroyed and (moved) unreached asteroids are, as a multiset, the moved snapshot |
| Games.SweepKeepsBullets | src/Asteroids/Game.cs:59-74 | the bullets left and the bullets spent are, as a multiset, the bullets before the pass |
| Games.SweepSpendsBullets | src/Asteroids/Game.cs:59-74 | each destroyed asteroid was touched by the active bullet spent on it |
| Games.SweepOffspring | src/Asteroids/Game.cs:66-71 | the fragments are two per destroyed asteroid above the smallest tier and none for the smallest, in order |
| Games.SweepSafe | src/Asteroids/Game.cs:52-56 | without a crash no survivor touches the ship |
| Games.SweepUntouched | src/Asteroids/Game.cs:58-73 | no asteroid the pass keeps, except the one that hit the ship, is touched by an active bullet left at the end of the pass |
| Games.SweepCrash | src/Asteroids/Game.cs:52-56 | after a crash the crashing asteroid is the last survivor and the unreached asteroids are exactly the unprocessed tail of the snapshot |
| Games.SweepValid | src/Asteroids/Game.cs:47-75 | sound rules keep survivors, destroyed asteroids, fragments, unreached asteroids and bullets valid |
| Games.Update | src/Asteroids/Game.cs:32-83 | a finished game does not change; otherwise the field is kept, the ship makes one step, and the level stays or rises by one |
| Games.UpdateOutcome | src/Asteroids/Game.cs:32-83 | a tick ends in one of three ways: a crash (over, same level, the unreached asteroids kept unmoved), a cleared field (next level, a new wave around the moved ship), or neither (survivors then fragments); the score rises by the destroyed asteroids' points |
| Games.UpdateKeepsValid | src/Asteroids/Game.cs:32-83 | with a fair source every tick keeps the game invariant |
| Games.UpdateNonEmpty | src/Asteroids/Game.cs:78-82 | a running game never leaves a tick with no asteroids |
| Games.UpdateScore | src/Asteroids/Game.cs:59-73 | each destroyed asteroid consumed exactly one bullet, which touched it, and the score rises by (4 - size) * 100 per destroyed asteroid |
| Games.UpdateCollision | src/Asteroids/Game.cs:47-73 | a tick ends the game exactly when the pass met a crash: then the last survivor touches the moved ship and the unreached asteroids are the unmoved tail of the list; otherwise no survivor touches the ship, and none is touched by an active bullet of the new game |
| Games.OffspringCount | src/Asteroids/Game.cs:116-131 | the number of fragments is twice the number of destroyed asteroids above the smallest tier |
| Games.UpdateSplits | src/Asteroids/Game.cs:66-71 | the asteroid count changes by -1 for a destroyed small asteroid and +1 for a larger one, whose two fragments are at its position one tier smaller |
| Games.UpdateNextLevel | src/Asteroids/Game.cs:78-82 | the level rises exactly when no crash happened and the field was cleared; the new wave has 2 * (new level) + 3 large asteroids, each at least 100 from the ship |
| Encoding.DistanceBetween | src/Asteroids/Game.cs:244-249 | the distance is symmetric in its two points and, with an exact root, is the non-negative number whose square is the squared Euclidean distance |
| Encoding.DistanceOrder | src/Asteroids/Game.cs:244-249 | with an exact root, one point is no farther from a third than another exactly when its squared distance is no larger |
| Encoding.Key | src/Asteroids/Game.cs:192-194 | the sort key of an asteroid is its distance to the ship, and with an exact root ordering by the key is ordering by squared distance from the ship, in both directions |
| Encoding.Insert | src/Asteroids/Game.cs:191-194 | insertion adds the asteroid and nothing else |
| Encoding.InsertSorted | src/Asteroids/Game.cs:191-194 | insertion keeps a list sorted by the key |
| Encoding.SortBy | src/Asteroids/Game.cs:191-194 | the sort is a permutation of the asteroids in non-decreasing key order |
| Encoding.Slot | src/Asteroids/Game.cs:200-205 | an asteroid occupies three entries |
| Encoding.SlotsFrom | src/Asteroids/Game.cs:196-214 | the slot part has three entries per remaining slot |
| Encoding.Encode | src/Asteroids/Game.cs:174-217 | the state vector has 21 entries |
| Encoding.ShipPart | src/Asteroids/Game.cs:183-188 | the ship part has six entries |
| Encoding.GetGameState | src/Asteroids/Game.cs:174-217 | the state is 21 entries laid out over a nearest-first permutation of the asteroids |
| Encoding.SlotAt | src/Asteroids/Game.cs:196-214 | slot k holds the k-th asteroid of the order, or three zeros when there are fewer than k + 1 |
| Encoding.EncodeLayout | src/Asteroids/Game.cs:180-216 | entries 0 to 5 describe the ship, slot k is the k-th nearest asteroid, and missing asteroids are zero padding |
| Encoding.SlotEntries | src/Asteroids/Game.cs:200-205 | an occupied slot holds dx / width, dy / height and size / 2 |
| Encoding.ShipLayout | src/Asteroids/Game.cs:183-188 | the ship entries are x / width, y / height, sin and cos of the heading, vx / 10, vy / 10 |
| Encoding.SlotDecodes | src/Asteroids/Game.cs:201-205 | scaling a slot's offsets back by width and height and adding the ship's position recovers the asteroid's position, and twice the size entry its size |
| Encoding.DecodeSlot | src/Asteroids/Game.cs:196-206 | every occupied slot of the state decodes back to its asteroid's position and size |
| Encoding.NearestSlotsFirst | src/Asteroids/Game.cs:191-206 | the asteroid decoded from an earlier slot is no farther from the ship than one decoded from a later slot |
| Encoding.LeftOutAreFarther | src/Asteroids/Game.cs:191-198 | an asteroid beyond the fifth is at least as far as every encoded one |
| Encoding.ShipFeatureRanges | src/Asteroids/Game.cs:183-186 | the ship's position features lie in [0, 1) and its heading features in [-1, 1] |
| Encoding.SizeFeatureRange | src/Asteroids/Game.cs:205-212 | every size feature is 0, 0.5 or 1 |
| AIPlayers.NewPlayer | src/Asteroids/AIPlayer.cs:24-50 | a new agent is idle, with exploration rate 1, no games, episode 0, an empty buffer and the loaded model, if any |
| AIPlayers.NewPlayerBookkept | src/Asteroids/AIPlayer.cs:24-50 | a new agent satisfies the bookkeeping invariant |
| AIPlayers.StartTraining | src/Asteroids/AIPlayer.cs:52-60 | training restarts with rate 1, no games, episode 0, an empty buffer and playing switched off |
| AIPlayers.StartPlaying | src/Asteroids/AIPlayer.cs:62-79 | playing switches training off and changes nothing else |
| AIPlayers.StopAI | src/Asteroids/AIPlayer.cs:81-85 | both modes off, nothing else changes |
| AIPlayers.SwitchesBookkept | src/Asteroids/AIPlayer.cs:52-85 | the mode switches keep the bookkeeping invariant; in particular the two flags are never both set |
| AIPlayers.Decay | src/Asteroids/AIPlayer.cs:119 | the new rate is max(0.1, 0.99 rate) |
| AIPlayers.DecayBounds | src/Asteroids/AIPlayer.cs:119 | from [0.1, 1] the rate never rises and never drops below 0.1 |
| AIPlayers.DecaySchedule | src/Asteroids/AIPlayer.cs:119 | after n games the rate is max(0.1, 0.99^n) |
| AIPlayers.Overwrite | src/Asteroids/AIPlayer.cs:109-112 | every buffered example gets the outcome reward and keeps its state and action |
| AIPlayers.Train | src/Asteroids/AIPlayer.cs:229-258 | training on no examples keeps the model, otherwise the model is the one fitted to the examples |
| AIPlayers.EndGame | src/Asteroids/AIPlayer.cs:102-134 | a finished game is reset, counted and the rate decays; the buffer takes the outcome reward, except that every hundredth game trains on it and clears it; training ends at the thousandth game |
| AIPlayers.Choose | src/Asteroids/AIPlayer.cs:139-152 | with a model and the exploration draw at or above the rate the policy's action is taken, otherwise a random action |
| AIPlayers.ExploredActionInRange | src/Asteroids/AIPlayer.cs:144 | a random action lies in [0, 5) |
| AIPlayers.NoModelExplores | src/Asteroids/AIPlayer.cs:141-145 | without a model the agent always explores, with an action in [0, 5) |
| AIPlayers.Danger | src/Asteroids/AIPlayer.cs:211-224 | an asteroid's danger term is non-negative, and positive exactly when the ship is within 50 + radius of it |
| AIPlayers.TotalDanger | src/Asteroids/AIPlayer.cs:212-224 | the summed danger is non-negative |
| AIPlayers.CalculateReward | src/Asteroids/AIPlayer.cs:198-227 | the immediate reward is at most -0.01 per live bullet, hence never positive |
| AIPlayers.NoDanger | src/Asteroids/AIPlayer.cs:212-224 | the danger sum is zero exactly when no asteroid is within 50 + radius of the ship |
| AIPlayers.RewardWithoutDanger | src/Asteroids/AIPlayer.cs:198-227 | the reward is exactly the bullet penalty when, and only when, no asteroid is near |
| AIPlayers.DangerBySquares | src/Asteroids/AIPlayer.cs:214-220 | with an exact root, "near" is the squared distance below (50 + radius)^2 |
| AIPlayers.Record | src/Asteroids/AIPlayer.cs:161-169 | an example is appended while the buffer holds fewer than 10000 and dropped otherwise, so the buffer never exceeds 10000 |
| AIPlayers.Act | src/Asteroids/AIPlayer.cs:136-172 | one step ticks the game after the chosen action; while there is room the buffer grows by exactly one example, whose state encodes the game before acting, whose reward is that of the game after its action, and whose action is the one the new game was ticked from; a full buffer is unchanged; only game and buffer change |
| AIPlayers.UpdateTraining | src/Asteroids/AIPlayer.cs:99-173 | a finished or empty game is ended first; training stops at the thousandth game, and otherwise one step is played |
| AIPlayers.UpdateAIPlay | src/Asteroids/AIPlayer.cs:175-196 | a finished game is reset; without a model the step fails with NoPredictor; otherwise the predicted action is performed and the game ticks, and only the game changes |
| AIPlayers.Update | src/Asteroids/AIPlayer.cs:87-97 | training takes precedence over playing, and an idle agent does not change |
| AIPlayers.EndGameBookkept | src/Asteroids/AIPlayer.cs:116-133 | ending a training game keeps the invariant: games at most 1000, episode games / 100, buffer within 10000; the buffer is cleared at multiples of 100 and keeps its length otherwise |
| AIPlayers.UpdateBookkept | src/Asteroids/AIPlayer.cs:87-173 | every successful agent update keeps the bookkeeping invariant |
| AIPlayers.TrainingStops | src/Asteroids/AIPlayer.cs:129-133 | the end of the thousandth game switches training off with 1000 games and episode 10 |
| AIPlayers.OutcomeOverwrites | src/Asteroids/AIPlayer.cs:106-127 | off a multiple of 100 every buffered example, of this game or earlier ones, carries the outcome reward afterwards; at a multiple the model is fitted to as many examples, all carrying it |
| AIPlayers.ClearRewardUnreachable | src/Asteroids/AIPlayer.cs:102-106 | a reset game has an asteroid and level at least 1; one agent step (action, then tick) keeps that; after such a step a game that is over or has no asteroids has outcome reward -10, so the +10 clear reward is never written |
| AIPlayers.PlayWithoutModelFails | src/Asteroids/AIPlayer.cs:175-189 | playing a running game without a model fails with NoPredictor |
| AIPlayers.PlayWithModelSucceeds | src/Asteroids/AIPlayer.cs:175-196 | with a model, or with a finished game, an update succeeds |
| AIPlayers.UpdateKeepsGameValid | src/Asteroids/AIPlayer.cs:87-196 | with fair random draws an agent update keeps its game valid |
| AIPlayers.TrainingKeepsGameValid | src/Asteroids/AIPlayer.cs:99-173 | a training update keeps the game valid |
| AIPlayers.EndGameValid | src/Asteroids/AIPlayer.cs:115 | the reset at the end of a game yields a valid game on the same field |
| AIPlayers.PlayKeepsGameValid | src/Asteroids/AIPlayer.cs:175-196 | a playing update keeps the game valid |
| AIPlayers.ActKeepsValid | src/Asteroids/AIPlayer.cs:136-172 | acting and ticking keeps the game valid |

## Left out

- **Not modelled.** GameForm, Program, GameState.cs, Spaceship.cs and GameEngine.cs (window, timer, input plumbing and an unused older engine) are not part of this model.
- **Drawing.** Drawing (`Draw`) and the outline shape from `GeneratePoints` are left out. Only the number of random draws the outline consumes is modelled.
- **ML.NET and I/O.** ML.NET training and prediction, model files and console output are left out. Fitting and predicting are parameters (`Trainer`), and saving and loading the model are not modelled.
- **Float arithmetic.** Single-precision rounding is not modelled; all arithmetic is exact on `real`. The 32-bit integer score is unbounded.
- **Trigonometry.** Trigonometry and square root are parameters, not the true functions. The sign-sensitive results rely only on the clamp of cosine and sine to [-1, 1].
- **Spawn loop.** The spawn loop's redraws are not modelled individually, and its termination is not modelled. The loop is one oracle event returning the accepted point. On a field with no cell at least 100 from the ship, the source's loop never ends, in Reset and at a level-up. `Games.SpawnRoom` states when this happens around the reset ship. The model's single event cannot express the hang.
- **Play area.** The play area is assumed to be positive in both extents. This is `0 < w && 0 < h` on the operations that divide or wrap, and at least 3 (27 for bullets and the game invariant) where field invariants are proved. The lemmas that also assume `Fair` dice need more room: `Fair` asks for an acceptable cell around every ship position. By `Games.SpawnRoom` no dice are fair unless (w / 2)² + (h / 2)² is at least 10000, so on smaller fields (27 by 27, say) those lemmas say nothing. The 800 by 600 window the game opens in (src/Asteroids/GameForm.cs:15) has ample room around its centre.
- Games.Bounty: states only the lower bound of 200 points per destroyed asteroid of a known tier, not the exact sum. Games.UpdateScore states the exact per-asteroid amount.
- Asteroids.NewAsteroid: a size below -4 makes the source's `new PointF[8 + 2 * size]` throw. ShapeDraws treats it as zero outline draws, and no reachable asteroid has such a size.
- Encoding.GetGameState: uses one stable order among those `List.Sort` may produce. The layout lemmas hold for every nearest-first order.
- AIPlayers.Choose: the action the predictor returns is an arbitrary `int`. The source's cast of an unsigned prediction is not modelled.
- AIPlayers.Update: the reset at the end of a game and the following tick draw from two separate dice. The source uses one generator for both.
- AIPlayers.UpdateAIPlay: a loaded model whose prediction engine is missing is not distinguished from a missing model.
