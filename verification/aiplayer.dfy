/** The learning player: it drives a game through the same actions a human
    has, records (state, action, reward) examples while training, retrains
    its policy every hundred games, and lowers its exploration rate after
    every game. The trainer and the policy it produces are parameters. */
module AIPlayers {
  import opened Geometry
  import opened Options
  import opened Chance
  import opened Asteroids
  import Games
  import Encoding

  const MaxTrainingExamples: int := 10000
  const TrainingEpisodes: int := 1000

  /** Games between two retrainings, and the episode length. */
  const EpisodeLength: int := 100

  const InitialRate: real := 1.0
  const MinRate: real := 0.1
  const RateDecay: real := 0.99

  /** The outcome reward written into every buffered example when a game
      ends: negative for a crash, positive for a cleared level. */
  const CrashReward: real := -10.0
  const ClearReward: real := 10.0

  /** Number of actions PerformAction understands. */
  const Actions: int := 5

  datatype TrainingExample = TrainingExample(state: seq<real>, action: int, reward: real)

  /** The learning library: fitting a policy of type M to examples, and a
      policy's predicted action for a state vector. */
  datatype Trainer<!M> = Trainer(fit: seq<TrainingExample> -> M, predict: (M, seq<real>) -> int)

  /** The player's state. `model` is None until a policy has been loaded or
      trained; the source keeps the model and its prediction engine in two
      fields that are always set together. */
  datatype Player<M> = Player(
    game: Games.Game,
    training: bool,
    playing: bool,
    rate: real,
    games: int,
    episode: int,
    buffer: seq<TrainingExample>,
    model: Option<M>)

  /** The random values one Update of the player uses: the game's draws for
      a Reset and for the tick, and the player's own two draws, NextDouble
      for the exploration test and NextDouble scaled by Random.Next(5). */
  datatype Roll = Roll(reset: Dice, tick: Dice, explore: real, pick: real)

  /** The draws a real generator can produce. */
  ghost predicate FairRoll(r: Roll, w: int, h: int) {
    && Fair(r.reset, w, h) && Fair(r.tick, w, h)
    && 0.0 <= r.explore < 1.0 && 0.0 <= r.pick < 1.0
  }

  /** Update fails where the source dereferences a missing prediction
      engine. */
  datatype Fault = NoPredictor

  /** The constructor: exploration rate 1, nothing recorded, neither mode on,
      and the policy loaded from disk if there was one. */
  function NewPlayer<M>(game: Games.Game, loaded: Option<M>): (p: Player<M>)
    ensures p.game == game && p.model == loaded
    ensures !p.training && !p.playing
    ensures p.rate == InitialRate && p.games == 0 && p.episode == 0 && p.buffer == []
  {
    Player(game, false, false, InitialRate, 0, 0, [], loaded)
  }

  /** The bookkeeping every reachable player keeps: never both modes on, an
      exploration rate in [0.1, 1], at most 1000 games counted, one episode
      per hundred games, at most 10000 examples, and training only while
      fewer than 1000 games have been played. */
  predicate Bookkept<M>(p: Player<M>) {
    && !(p.training && p.playing)
    && MinRate <= p.rate <= InitialRate
    && 0 <= p.games <= TrainingEpisodes
    && p.episode == p.games / EpisodeLength
    && |p.buffer| <= MaxTrainingExamples
    && (p.training ==> p.games < TrainingEpisodes)
  }

  lemma NewPlayerBookkept<M>(game: Games.Game, loaded: Option<M>)
    ensures Bookkept(NewPlayer(game, loaded))
  {
  }

  /** StartTraining: training on, playing off, counters, rate and buffer
      reset; the game and the policy are kept. */
  function StartTraining<M>(p: Player<M>): (r: Player<M>)
    ensures r.training && !r.playing
    ensures r.games == 0 && r.episode == 0 && r.rate == InitialRate && r.buffer == []
    ensures r.game == p.game && r.model == p.model
  {
    p.(training := true, playing := false, games := 0, episode := 0, rate := InitialRate, buffer := [])
  }

  /** StartPlaying: playing on, training off, even when there is no policy
      (the source reports that and returns after setting the flags). */
  function StartPlaying<M>(p: Player<M>): (r: Player<M>)
    ensures r.playing && !r.training
    ensures r.(playing := p.playing, training := p.training) == p
  {
    p.(training := false, playing := true)
  }

  /** StopAI: both modes off, nothing else changes. */
  function StopAI<M>(p: Player<M>): (r: Player<M>)
    ensures !r.playing && !r.training
    ensures r.(playing := p.playing, training := p.training) == p
  {
    p.(training := false, playing := false)
  }

  /** The three mode switches keep the bookkeeping. */
  lemma SwitchesBookkept<M>(p: Player<M>)
    requires Bookkept(p)
    ensures Bookkept(StartTraining(p)) && Bookkept(StartPlaying(p)) && Bookkept(StopAI(p))
  {
  }

  /** The exploration rate after a game: 0.99 of it, but never below 0.1. */
  function Decay(rate: real): (r: real)
    ensures MinRate <= r
    ensures RateDecay * rate <= r
    ensures r == MinRate || r == RateDecay * rate
  {
    if RateDecay * rate < MinRate then MinRate else RateDecay * rate
  }

  /** A rate in [0.1, 1] stays there and never grows. */
  lemma DecayBounds(rate: real)
    requires MinRate <= rate <= InitialRate
    ensures MinRate <= Decay(rate) <= rate
  {
  }

  function Pow(x: real, n: nat): real {
    if n == 0 then 1.0 else x * Pow(x, n - 1)
  }

  /** The rate after `n` games from `rate`. */
  function Decays(rate: real, n: nat): real {
    if n == 0 then rate else Decay(Decays(rate, n - 1))
  }

  /** After n games of training the exploration rate is max(0.1, 0.99^n). */
  lemma {:induction false} DecaySchedule(n: nat)
    ensures Decays(InitialRate, n) == if Pow(RateDecay, n) < MinRate then MinRate else Pow(RateDecay, n)
  {
    if n > 0 {
      DecaySchedule(n - 1);
      var p := Pow(RateDecay, n - 1);
      assert Pow(RateDecay, n) == RateDecay * p;
      if p < MinRate {
        assert RateDecay * p < MinRate;
      }
    }
  }

  /** Every buffered example with its reward replaced by `reward`; states
      and actions are kept. */
  function Overwrite(buffer: seq<TrainingExample>, reward: real): (r: seq<TrainingExample>)
    ensures |r| == |buffer|
    ensures forall i :: 0 <= i < |r| ==> r[i].reward == reward
    ensures forall i :: 0 <= i < |r| ==> r[i].state == buffer[i].state && r[i].action == buffer[i].action
    decreases |buffer|
  {
    if buffer == [] then []
    else [buffer[0].(reward := reward)] + Overwrite(buffer[1..], reward)
  }

  /** TrainAndSaveModel: with no examples the policy is left as it was;
      otherwise it is replaced by one fitted to the examples. Saving the
      file is not part of this model. */
  function Train<M>(tr: Trainer<M>, examples: seq<TrainingExample>, model: Option<M>): (r: Option<M>)
    ensures examples == [] ==> r == model
    ensures examples != [] ==> r == Some(tr.fit(examples))
  {
    if examples == [] then model else Some(tr.fit(examples))
  }

  /** The reward written over the buffer when a game ends. */
  function Outcome(g: Games.Game): real {
    if g.over then CrashReward else ClearReward
  }

  /** The terminal branch of UpdateTraining: every buffered example takes
      the outcome reward, the game is reset, the game count goes up, the
      rate decays; every hundredth game starts a new episode, retrains on
      the buffer and empties it; at 1000 games training stops. */
  function EndGame<M>(p: Player<M>, tr: Trainer<M>, d: Dice): (r: Player<M>)
    requires 0 < p.game.w && 0 < p.game.h
    ensures r.game == Games.Reset(p.game, d)
    ensures r.games == p.games + 1 && r.rate == Decay(p.rate)
    ensures r.playing == p.playing
    ensures r.training == (p.training && r.games < TrainingEpisodes)
    ensures r.games % EpisodeLength != 0 ==>
      && r.episode == p.episode && r.model == p.model
      && |r.buffer| == |p.buffer|
      && forall i :: 0 <= i < |r.buffer| ==>
           r.buffer[i] == p.buffer[i].(reward := Outcome(p.game))
    ensures r.games % EpisodeLength == 0 ==>
      && r.episode == p.episode + 1 && r.buffer == []
      && r.model == Train(tr, Overwrite(p.buffer, Outcome(p.game)), p.model)
  {
    var examples := Overwrite(p.buffer, Outcome(p.game));
    var games := p.games + 1;
    var q := p.(game := Games.Reset(p.game, d), games := games, rate := Decay(p.rate),
                training := p.training && games < TrainingEpisodes);
    if games % EpisodeLength == 0 then
      q.(episode := p.episode + 1, model := Train(tr, examples, p.model), buffer := [])
    else
      q.(buffer := examples)
  }

  /** The action for a state: a random one, Random.Next(5), when the
      exploration draw falls below the rate or there is no policy; the
      policy's prediction otherwise. */
  function Choose<M>(rate: real, model: Option<M>, tr: Trainer<M>, state: seq<real>, roll: Roll): (action: int)
    ensures model.Some? && rate <= roll.explore ==> action == tr.predict(model.value, state)
    ensures roll.explore < rate || model.None? ==> action == (roll.pick * Actions as real).Floor
  {
    if roll.explore < rate || model.None? then (roll.pick * Actions as real).Floor
    else tr.predict(model.value, state)
  }

  /** A random action is one of the five PerformAction understands. */
  lemma ExploredActionInRange(pick: real)
    requires 0.0 <= pick < 1.0
    ensures 0 <= (pick * Actions as real).Floor < Actions
  {
    MulNonNeg(pick, Actions as real);
    assert pick * Actions as real < Actions as real;
  }

  /** With no policy, training always explores: every action is a random
      one, whatever the rate. */
  lemma NoModelExplores<M>(rate: real, tr: Trainer<M>, state: seq<real>, roll: Roll)
    requires 0.0 <= roll.pick < 1.0
    ensures var a := Choose(rate, None, tr, state, roll);
      a == (roll.pick * Actions as real).Floor && 0 <= a < Actions
  {
    ExploredActionInRange(roll.pick);
  }

  /** How much being close to one asteroid costs: the amount by which the
      ship is inside the asteroid's radius plus 50, scaled by 0.01. */
  function Danger(t: Trig, ship: Vec, a: Asteroid): (r: real)
    ensures 0.0 <= r
    ensures 0.0 < r <==> Sqrt(t, Dist2(ship, a.pos)) < 50.0 + a.radius
  {
    var dist := Sqrt(t, Dist2(ship, a.pos));
    if dist < 50.0 + a.radius then
      MulPos(50.0 + a.radius - dist, 0.01);
      (50.0 + a.radius - dist) * 0.01
    else 0.0
  }

  /** The danger of every asteroid, summed. */
  function TotalDanger(t: Trig, ship: Vec, s: seq<Asteroid>): (r: real)
    ensures 0.0 <= r
    decreases |s|
  {
    if s == [] then 0.0 else Danger(t, ship, s[0]) + TotalDanger(t, ship, s[1..])
  }

  /** CalculateReward: 0.01 off per live bullet and the danger of every
      asteroid. */
  function CalculateReward(g: Games.Game, t: Trig): (r: real)
    ensures r <= -0.01 * |g.bullets| as real <= 0.0
  {
    -0.01 * |g.bullets| as real - TotalDanger(t, g.ship.pos, g.asteroids)
  }

  /** An asteroid is a danger when the ship is closer to it than its radius
      plus 50. */
  predicate InDanger(t: Trig, ship: Vec, a: Asteroid) {
    Sqrt(t, Dist2(ship, a.pos)) < 50.0 + a.radius
  }

  /** The danger sum vanishes exactly when no asteroid is a danger. */
  lemma {:induction false} NoDanger(t: Trig, ship: Vec, s: seq<Asteroid>)
    ensures TotalDanger(t, ship, s) == 0.0 <==> forall i :: 0 <= i < |s| ==> !InDanger(t, ship, s[i])
    decreases |s|
  {
    if s != [] {
      NoDanger(t, ship, s[1..]);
      assert forall i :: 1 <= i < |s| ==> s[i] == s[1..][i - 1];
    }
  }

  /** The reward is the bullet penalty alone exactly when no asteroid is
      within 50 of its radius; with an exact square root that is a
      comparison of squared distances. */
  lemma RewardWithoutDanger(g: Games.Game, t: Trig)
    ensures CalculateReward(g, t) == -0.01 * |g.bullets| as real <==>
      forall i :: 0 <= i < |g.asteroids| ==> !InDanger(t, g.ship.pos, g.asteroids[i])
  {
    NoDanger(t, g.ship.pos, g.asteroids);
  }

  /** With an exact square root and a non-negative radius, an asteroid is a
      danger exactly when its squared distance is below (radius + 50)^2. */
  lemma DangerBySquares(t: Trig, ship: Vec, a: Asteroid)
    requires ExactSqrt(t)
    requires 0.0 <= a.radius
    ensures InDanger(t, ship, a) <==> Dist2(ship, a.pos) < (50.0 + a.radius) * (50.0 + a.radius)
  {
    Dist2Symmetric(ship, a.pos);
    SqrtCompare(t, Dist2(ship, a.pos), 50.0 + a.radius);
  }

  /** Adds an example only while the buffer has room for it. */
  function Record(buffer: seq<TrainingExample>, e: TrainingExample): (r: seq<TrainingExample>)
    ensures |buffer| < MaxTrainingExamples ==> r == buffer + [e]
    ensures MaxTrainingExamples <= |buffer| ==> r == buffer
    ensures |buffer| <= MaxTrainingExamples ==> |r| <= MaxTrainingExamples
  {
    if |buffer| < MaxTrainingExamples then buffer + [e] else buffer
  }

  /** The non-terminal part of UpdateTraining: encode the state, choose an
      action, perform it, score the result, record the example if there is
      room, and tick the game. */
  function Act<M>(p: Player<M>, tr: Trainer<M>, roll: Roll, t: Trig): (r: Player<M>)
    requires 0 < p.game.w && 0 < p.game.h
    ensures var state := Encoding.GetGameState(p.game, t);
      var action := Choose(p.rate, p.model, tr, state, roll);
      var acted := Games.PerformAction(p.game, action, t);
      && r.game == Games.Update(acted, t, roll.tick)
      && r.buffer == Record(p.buffer, TrainingExample(state, action, CalculateReward(acted, t)))
    ensures |p.buffer| < MaxTrainingExamples ==>
      && |r.buffer| == |p.buffer| + 1 && r.buffer[..|p.buffer|] == p.buffer
      && var e := r.buffer[|p.buffer|];
         && e.state == Encoding.GetGameState(p.game, t)
         && e.reward == CalculateReward(Games.PerformAction(p.game, e.action, t), t)
         && r.game == Games.Update(Games.PerformAction(p.game, e.action, t), t, roll.tick)
    ensures MaxTrainingExamples <= |p.buffer| ==> r.buffer == p.buffer
    ensures r.(game := p.game, buffer := p.buffer) == p
  {
    var state := Encoding.GetGameState(p.game, t);
    var action := Choose(p.rate, p.model, tr, state, roll);
    var acted := Games.PerformAction(p.game, action, t);
    var e := TrainingExample(state, action, CalculateReward(acted, t));
    p.(game := Games.Update(acted, t, roll.tick), buffer := Record(p.buffer, e))
  }

  /** UpdateTraining: a game that is over, or has no asteroid left, is
      ended first; training then stops at the thousandth game, and
      otherwise one step is played. */
  function UpdateTraining<M>(p: Player<M>, tr: Trainer<M>, roll: Roll, t: Trig): (r: Player<M>)
    requires 0 < p.game.w && 0 < p.game.h
    ensures !p.game.over && 0 < |p.game.asteroids| ==> r == Act(p, tr, roll, t)
    ensures p.game.over || |p.game.asteroids| == 0 ==>
      var q := EndGame(p, tr, roll.reset);
      r == if TrainingEpisodes <= q.games then q.(training := false) else Act(q, tr, roll, t)
  {
    if p.game.over || |p.game.asteroids| == 0 then
      var q := EndGame(p, tr, roll.reset);
      if TrainingEpisodes <= q.games then q.(training := false) else Act(q, tr, roll, t)
    else Act(p, tr, roll, t)
  }

  /** UpdateAIPlay: a game that is over is reset; otherwise the policy picks
      the action and the game ticks. Without a policy the source
      dereferences a missing prediction engine. */
  function UpdateAIPlay<M>(p: Player<M>, tr: Trainer<M>, roll: Roll, t: Trig): (r: Result<Player<M>, Fault>)
    requires 0 < p.game.w && 0 < p.game.h
    ensures p.game.over ==> r == Ok(p.(game := Games.Reset(p.game, roll.reset)))
    ensures !p.game.over && p.model.None? ==> r == Err(NoPredictor)
    ensures r.Ok? ==> r.value.(game := p.game) == p
    ensures !p.game.over && p.model.Some? ==>
      var action := tr.predict(p.model.value, Encoding.GetGameState(p.game, t));
      r == Ok(p.(game := Games.Update(Games.PerformAction(p.game, action, t), t, roll.tick)))
  {
    if p.game.over then Ok(p.(game := Games.Reset(p.game, roll.reset)))
    else if p.model.None? then Err(NoPredictor)
    else
      var state := Encoding.GetGameState(p.game, t);
      var action := tr.predict(p.model.value, state);
      Ok(p.(game := Games.Update(Games.PerformAction(p.game, action, t), t, roll.tick)))
  }

  /** AIPlayer.Update: training takes precedence over playing; with neither
      mode on nothing happens. */
  function Update<M>(p: Player<M>, tr: Trainer<M>, roll: Roll, t: Trig): (r: Result<Player<M>, Fault>)
    requires 0 < p.game.w && 0 < p.game.h
    ensures p.training ==> r == Ok(UpdateTraining(p, tr, roll, t))
    ensures !p.training && p.playing ==> r == UpdateAIPlay(p, tr, roll, t)
    ensures !p.training && !p.playing ==> r == Ok(p)
  {
    if p.training then Ok(UpdateTraining(p, tr, roll, t))
    else if p.playing then UpdateAIPlay(p, tr, roll, t)
    else Ok(p)
  }

  /** Ending a game keeps the bookkeeping: the count grows by one and the
      episode follows it, the rate decays within [0.1, 1], and training
      stays on only below 1000 games. */
  lemma EndGameBookkept<M>(p: Player<M>, tr: Trainer<M>, d: Dice)
    requires 0 < p.game.w && 0 < p.game.h
    requires Bookkept(p) && p.training
    ensures var q := EndGame(p, tr, d);
      && !(q.training && q.playing)
      && MinRate <= q.rate <= InitialRate
      && 0 <= q.games <= TrainingEpisodes
      && q.episode == q.games / EpisodeLength
      && |q.buffer| <= MaxTrainingExamples
      && (q.training ==> q.games < TrainingEpisodes)
    ensures var q := EndGame(p, tr, d);
      && (q.games % EpisodeLength == 0 ==> q.buffer == [])
      && (q.games % EpisodeLength != 0 ==> |q.buffer| == |p.buffer|)
  {
    DecayBounds(p.rate);
    var n := p.games;
    if (n + 1) % EpisodeLength == 0 {
      assert (n + 1) / EpisodeLength == n / EpisodeLength + 1;
    } else {
      assert (n + 1) / EpisodeLength == n / EpisodeLength;
    }
  }

  /** Every Update keeps the bookkeeping. */
  lemma UpdateBookkept<M>(p: Player<M>, tr: Trainer<M>, roll: Roll, t: Trig)
    requires 0 < p.game.w && 0 < p.game.h
    requires Bookkept(p)
    ensures Update(p, tr, roll, t).Ok? ==> Bookkept(Update(p, tr, roll, t).value)
  {
    if p.training {
      if p.game.over || |p.game.asteroids| == 0 {
        EndGameBookkept(p, tr, roll.reset);
      }
    }
  }

  /** Training stops by itself at the thousandth game: a player that is
      training with 999 games counted and a finished game stops training,
      with 1000 games and ten episodes counted. */
  lemma TrainingStops<M>(p: Player<M>, tr: Trainer<M>, roll: Roll, t: Trig)
    requires 0 < p.game.w && 0 < p.game.h
    requires Bookkept(p) && p.training && p.games == TrainingEpisodes - 1
    requires p.game.over
    ensures var q := Update(p, tr, roll, t);
      q.Ok? && !q.value.training && q.value.games == TrainingEpisodes && q.value.episode == 10
  {
    EndGameBookkept(p, tr, roll.reset);
  }

  /** At the end of a game that does not close an episode, every buffered
      example, from this game and from the earlier games of the episode,
      carries this game's outcome reward; at the end of an episode the
      policy is refitted to examples that all carry it, and the buffer is
      emptied. */
  lemma OutcomeOverwrites<M>(p: Player<M>, tr: Trainer<M>, d: Dice)
    requires 0 < p.game.w && 0 < p.game.h
    ensures var q := EndGame(p, tr, d);
      q.games % EpisodeLength != 0 ==> forall i :: 0 <= i < |q.buffer| ==> q.buffer[i].reward == Outcome(p.game)
    ensures var q := EndGame(p, tr, d);
      q.games % EpisodeLength == 0 && p.buffer != [] ==>
        exists examples: seq<TrainingExample> :: q.model == Some(tr.fit(examples)) && |examples| == |p.buffer|
          && forall i :: 0 <= i < |examples| ==> examples[i].reward == Outcome(p.game)
  {
    var q := EndGame(p, tr, d);
    if q.games % EpisodeLength == 0 && p.buffer != [] {
      var examples := Overwrite(p.buffer, Outcome(p.game));
      assert q.model == Some(tr.fit(examples));
    }
  }

  /** What the agent's game keeps between ticks: an asteroid on the field and
      a level of at least one. */
  predicate Live(g: Games.Game) {
    0 < |g.asteroids| && Games.FirstLevel <= g.level
  }

  /** The positive outcome reward for clearing a level is never written. A
      reset game is live; one step of the agent, an action and then a tick,
      keeps a live game live; so when the agent finds the game over or empty
      after such a step, it was a crash and the outcome is -10. */
  lemma ClearRewardUnreachable(g: Games.Game, id: int, t: Trig, d: Dice, d0: Dice)
    requires 0 < g.w && 0 < g.h
    ensures Live(Games.Reset(g, d0))
    ensures Live(g) ==> Live(Games.Update(Games.PerformAction(g, id, t), t, d))
    ensures var r := Games.Update(Games.PerformAction(g, id, t), t, d);
      Live(g) && (r.over || |r.asteroids| == 0) ==> Outcome(r) == CrashReward
  {
    var acted := Games.PerformAction(g, id, t);
    if Live(g) {
      Games.UpdateNonEmpty(acted, t, d);
    }
  }

  /** Playing without a policy fails on the first tick of a live game. */
  lemma PlayWithoutModelFails<M>(p: Player<M>, tr: Trainer<M>, roll: Roll, t: Trig)
    requires 0 < p.game.w && 0 < p.game.h
    requires p.model.None? && !p.game.over
    ensures Update(StartPlaying(p), tr, roll, t) == Err(NoPredictor)
  {
  }

  /** With a policy, a running game never fails, and a game that is over
      never fails either: it is reset. */
  lemma PlayWithModelSucceeds<M>(p: Player<M>, tr: Trainer<M>, roll: Roll, t: Trig)
    requires 0 < p.game.w && 0 < p.game.h
    requires p.model.Some? || p.game.over
    ensures Update(p, tr, roll, t).Ok?
  {
  }

  /** On fair draws, every Update that succeeds keeps the game valid. */
  lemma UpdateKeepsGameValid<M>(p: Player<M>, tr: Trainer<M>, roll: Roll, t: Trig)
    requires Games.Valid(p.game)
    requires FairRoll(roll, p.game.w, p.game.h)
    ensures Update(p, tr, roll, t).Ok? ==> Games.Valid(Update(p, tr, roll, t).value.game)
  {
    if p.training {
      TrainingKeepsGameValid(p, tr, roll, t);
    } else if p.playing {
      PlayKeepsGameValid(p, tr, roll, t);
    }
  }

  lemma TrainingKeepsGameValid<M>(p: Player<M>, tr: Trainer<M>, roll: Roll, t: Trig)
    requires Games.Valid(p.game)
    requires FairRoll(roll, p.game.w, p.game.h)
    ensures Games.Valid(UpdateTraining(p, tr, roll, t).game)
  {
    var g := p.game;
    var r := UpdateTraining(p, tr, roll, t);
    if g.over || |g.asteroids| == 0 {
      var q := EndGame(p, tr, roll.reset);
      EndGameValid(p, tr, roll.reset);
      if TrainingEpisodes <= q.games {
        assert r.game == q.game;
      } else {
        ActKeepsValid(q, tr, roll, t);
        assert r == Act(q, tr, roll, t);
      }
    } else {
      ActKeepsValid(p, tr, roll, t);
      assert r == Act(p, tr, roll, t);
    }
  }

  /** Ending a game on fair draws gives a valid fresh game. */
  lemma EndGameValid<M>(p: Player<M>, tr: Trainer<M>, d: Dice)
    requires Games.Valid(p.game)
    requires Fair(d, p.game.w, p.game.h)
    ensures Games.Valid(EndGame(p, tr, d).game)
    ensures EndGame(p, tr, d).game.w == p.game.w && EndGame(p, tr, d).game.h == p.game.h
  {
    Games.FreshValid(p.game.w, p.game.h, d);
  }

  lemma PlayKeepsGameValid<M>(p: Player<M>, tr: Trainer<M>, roll: Roll, t: Trig)
    requires Games.Valid(p.game)
    requires FairRoll(roll, p.game.w, p.game.h)
    ensures UpdateAIPlay(p, tr, roll, t).Ok? ==> Games.Valid(UpdateAIPlay(p, tr, roll, t).value.game)
  {
    var g := p.game;
    if g.over {
      Games.FreshValid(g.w, g.h, roll.reset);
    } else if p.model.Some? {
      var action := tr.predict(p.model.value, Encoding.GetGameState(g, t));
      Games.PerformActionKeepsValid(g, action, t);
      Games.UpdateKeepsValid(Games.PerformAction(g, action, t), t, roll.tick);
    }
  }

  /** One training step on a valid game, with fair draws, gives a valid
      game. */
  lemma ActKeepsValid<M>(p: Player<M>, tr: Trainer<M>, roll: Roll, t: Trig)
    requires Games.Valid(p.game)
    requires FairRoll(roll, p.game.w, p.game.h)
    ensures Games.Valid(Act(p, tr, roll, t).game)
  {
    var state := Encoding.GetGameState(p.game, t);
    var action := Choose(p.rate, p.model, tr, state, roll);
    var acted := Games.PerformAction(p.game, action, t);
    Games.PerformActionKeepsValid(p.game, action, t);
    Games.UpdateKeepsValid(acted, t, roll.tick);
  }
}
