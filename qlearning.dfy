/**
 * The tabular Q-learning run as values: the Q-table is a sequence of rows
 * indexed by state, each row a sequence of action values. These functions say
 * what the imperative training loop (module Trainer) computes, and the lemmas
 * state what that computation guarantees.
 */
module QLearning {
  import opened Environment

  /** Q[s][a]: the estimated discounted return of taking action `a` in state `s`. */
  type Table = seq<seq<real>>

  /** The per-episode log entry. */
  datatype Outcome = Success | Failure

  /** The run's constants: number of episodes, learning rate and discount factor. */
  datatype Hyper = Hyper(episodes: nat, alpha: real, gamma: real)

  ghost predicate Shaped(q: Table, rows: nat, cols: nat) {
    |q| == rows && forall s :: 0 <= s < |q| ==> |q[s]| == cols
  }

  ghost predicate NonNegative(q: Table) {
    forall s, a :: 0 <= s < |q| && 0 <= a < |q[s]| ==> q[s][a] >= 0.0
  }

  /** The table `np.zeros((S, A))` creates. */
  function Zeros(rows: nat, cols: nat): (q: Table)
    ensures Shaped(q, rows, cols) && NonNegative(q)
    ensures forall s, a :: 0 <= s < rows && 0 <= a < cols ==> q[s][a] == 0.0
  {
    seq(rows, _ => seq(cols, _ => 0.0))
  }

  // ---------------------------------------------------------------------------
  // np.max and np.argmax over one row

  /** The largest value of a row. */
  function RowMax(row: seq<real>): (m: real)
    requires |row| > 0
    ensures m in row
    ensures forall j :: 0 <= j < |row| ==> row[j] <= m
    decreases |row|
  {
    if |row| == 1 then row[0]
    else
      var m' := RowMax(row[..|row| - 1]);
      if row[|row| - 1] > m' then row[|row| - 1] else m'
  }

  /** Extending a prefix of a row by one entry: the maximum moves only to a strictly larger entry. */
  lemma RowMaxExtend(row: seq<real>, j: nat)
    requires 0 < j < |row|
    ensures RowMax(row[..j + 1]) == if row[j] > RowMax(row[..j]) then row[j] else RowMax(row[..j])
  {
    assert row[..j + 1][..j] == row[..j];
  }

  /** The index numpy's argmax returns, scanning left to right and moving only on a strictly larger value. */
  function Argmax(row: seq<real>): (i: nat)
    requires |row| > 0
    ensures i < |row|
    decreases |row|
  {
    if |row| == 1 then 0
    else
      var k := Argmax(row[..|row| - 1]);
      if row[|row| - 1] > row[k] then |row| - 1 else k
  }

  /** Argmax is the first index that holds the row's maximum. */
  lemma {:induction false} ArgmaxFirstMax(row: seq<real>)
    requires |row| > 0
    ensures var i := Argmax(row);
            row[i] == RowMax(row) && forall j :: 0 <= j < i ==> row[j] < row[i]
    decreases |row|
  {
    if |row| > 1 {
      var init := row[..|row| - 1];
      ArgmaxFirstMax(init);
      var k := Argmax(init);
      assert forall j :: 0 <= j < k ==> row[j] == init[j];
    }
  }

  /**
   * The policy: exploit the best action when the row holds a positive value,
   * otherwise take the random draw.
   */
  function ChooseAction(row: seq<real>, draw: nat): (a: nat)
    requires |row| > 0
    ensures draw < |row| ==> a < |row|
  {
    if RowMax(row) > 0.0 then Argmax(row) else draw
  }

  /** Extending a prefix of a row by one entry: argmax moves only to a strictly larger entry. */
  lemma ArgmaxExtend(row: seq<real>, j: nat)
    requires 0 < j < |row|
    ensures Argmax(row[..j + 1]) == if row[j] > row[Argmax(row[..j])] then j else Argmax(row[..j])
  {
    assert row[..j + 1][..j] == row[..j];
  }

  /**
   * The two branches of the policy: with a positive maximum, the first action
   * holding it; otherwise exactly the draw.
   */
  lemma ChooseActionCases(row: seq<real>, draw: nat)
    requires |row| > 0
    ensures var a := ChooseAction(row, draw);
            && (RowMax(row) > 0.0 ==> a < |row| && row[a] == RowMax(row) && forall j :: 0 <= j < a ==> row[j] < row[a])
            && (RowMax(row) <= 0.0 ==> a == draw)
  {
    ArgmaxFirstMax(row);
  }

  /** On a row with no negative entry, the policy explores exactly when the row is all zero. */
  lemma ExploresOnlyOnZeroRow(row: seq<real>)
    requires |row| > 0
    requires forall j :: 0 <= j < |row| ==> row[j] >= 0.0
    ensures RowMax(row) <= 0.0 <==> forall j :: 0 <= j < |row| ==> row[j] == 0.0
  {
    if forall j :: 0 <= j < |row| ==> row[j] == 0.0 {
      var i :| 0 <= i < |row| && row[i] == RowMax(row);
      assert row[i] == 0.0;
    }
  }

  // ---------------------------------------------------------------------------
  // The temporal-difference update

  /**
   * Watkins' rule: the new estimate of Q[s, a] moves a fraction `alpha` of the
   * way from the current estimate toward the target reward + gamma * max Q[s'].
   */
  function TdTarget(current: real, reward: real, alpha: real, gamma: real, nextMax: real): real {
    current + alpha * (reward + gamma * nextMax - current)
  }

  /** With 0 <= alpha <= 1 the new estimate lies between the current one and the target. */
  lemma TdTargetBetween(current: real, reward: real, alpha: real, gamma: real, nextMax: real)
    requires 0.0 <= alpha <= 1.0
    ensures var target := reward + gamma * nextMax;
            var r := TdTarget(current, reward, alpha, gamma, nextMax);
            (current <= target ==> current <= r <= target) && (target <= current ==> target <= r <= current)
  {
    var target := reward + gamma * nextMax;
    var d := target - current;
    assert TdTarget(current, reward, alpha, gamma, nextMax) == current + alpha * d;
    if d >= 0.0 {
      assert 0.0 <= alpha * d <= d;
    } else {
      assert d <= alpha * d <= 0.0;
    }
  }

  /** Non-negative inputs keep the new estimate non-negative. */
  lemma TdTargetNonNegative(current: real, reward: real, alpha: real, gamma: real, nextMax: real)
    requires 0.0 <= alpha <= 1.0 && gamma >= 0.0
    requires current >= 0.0 && reward >= 0.0 && nextMax >= 0.0
    ensures TdTarget(current, reward, alpha, gamma, nextMax) >= 0.0
  {
    assert gamma * nextMax >= 0.0;
    TdTargetBetween(current, reward, alpha, gamma, nextMax);
  }

  /** The table after `Q[s, a] := Q[s, a] + alpha * (reward + gamma * max(Q[s']) - Q[s, a])`. */
  function Updated(q: Table, s: nat, a: nat, reward: real, next: nat, alpha: real, gamma: real): (q': Table)
    requires s < |q| && a < |q[s]| && next < |q| && |q[next]| > 0
    ensures |q'| == |q| && forall i :: 0 <= i < |q| ==> |q'[i]| == |q[i]|
  {
    q[s := q[s][a := TdTarget(q[s][a], reward, alpha, gamma, RowMax(q[next]))]]
  }

  /** Cell (s, a) takes the new estimate; every other cell keeps its value. */
  lemma UpdatedCells(q: Table, s: nat, a: nat, reward: real, next: nat, alpha: real, gamma: real)
    requires s < |q| && a < |q[s]| && next < |q| && |q[next]| > 0
    ensures var q' := Updated(q, s, a, reward, next, alpha, gamma);
            && q'[s][a] == q[s][a] + alpha * (reward + gamma * RowMax(q[next]) - q[s][a])
            && forall i, j :: 0 <= i < |q| && 0 <= j < |q[i]| && (i != s || j != a) ==> q'[i][j] == q[i][j]
  {
  }

  /** A learning rate of zero leaves the table unchanged. */
  lemma UpdatedAlphaZero(q: Table, s: nat, a: nat, reward: real, next: nat, gamma: real)
    requires s < |q| && a < |q[s]| && next < |q| && |q[next]| > 0
    ensures Updated(q, s, a, reward, next, 0.0, gamma) == q
  {
    var q' := Updated(q, s, a, reward, next, 0.0, gamma);
    assert q'[s] == q[s];
  }

  /** A discount of zero makes the written value independent of the next state's row. */
  lemma UpdatedGammaZero(q: Table, s: nat, a: nat, reward: real, next: nat, alpha: real)
    requires s < |q| && a < |q[s]| && next < |q| && |q[next]| > 0
    ensures Updated(q, s, a, reward, next, alpha, 0.0)[s][a] == q[s][a] + alpha * (reward - q[s][a])
  {
  }

  /** Non-negative table, reward, alpha in [0, 1] and gamma >= 0 keep every entry non-negative. */
  lemma UpdatedNonNegative(q: Table, s: nat, a: nat, reward: real, next: nat, alpha: real, gamma: real)
    requires s < |q| && a < |q[s]| && next < |q| && |q[next]| > 0
    requires NonNegative(q) && reward >= 0.0 && 0.0 <= alpha <= 1.0 && gamma >= 0.0
    ensures NonNegative(Updated(q, s, a, reward, next, alpha, gamma))
  {
    var m := RowMax(q[next]);
    var i :| 0 <= i < |q[next]| && q[next][i] == m;
    assert m >= 0.0;
    TdTargetNonNegative(q[s][a], reward, alpha, gamma, m);
  }

  // ---------------------------------------------------------------------------
  // One step, one episode, the whole run

  /** What one iteration of the `while not done` body produces. */
  datatype StepResult = StepResult(table: Table, next: nat, draws: nat, reward: real, done: bool)

  /** Choose an action, step the environment and update the table (`draws` counts the random samples taken so far). */
  function Step(env: Env, h: Hyper, q: Table, state: nat, draws: nat, sample: nat -> nat): (r: StepResult)
    requires WellFormed(env) && ValidSamples(sample, env.numActions)
    requires Shaped(q, env.numStates, env.numActions) && state < env.numStates
    ensures Shaped(r.table, env.numStates, env.numActions) && r.next < env.numStates
  {
    var row := q[state];
    var a := ChooseAction(row, sample(draws));
    var t := env.step[state][a];
    StepResult(Updated(q, state, a, t.reward, t.next, h.alpha, h.gamma), t.next,
               if RowMax(row) > 0.0 then draws else draws + 1, t.reward, t.done)
  }

  /** Some step paid a nonzero reward (`if reward:` in the loop). */
  predicate Rewarded(rs: seq<real>) {
    |rs| > 0 && (rs[|rs| - 1] != 0.0 || Rewarded(rs[..|rs| - 1]))
  }

  /** Rewarded means: some reward in the sequence is nonzero. */
  lemma {:induction false} RewardedSome(rs: seq<real>)
    ensures Rewarded(rs) <==> exists i :: 0 <= i < |rs| && rs[i] != 0.0
  {
    if |rs| > 0 {
      var init := rs[..|rs| - 1];
      RewardedSome(init);
      if exists i :: 0 <= i < |rs| && rs[i] != 0.0 {
        var i :| 0 <= i < |rs| && rs[i] != 0.0;
        if i < |rs| - 1 { assert init[i] != 0.0; }
      }
      if exists i :: 0 <= i < |init| && init[i] != 0.0 {
        var i :| 0 <= i < |init| && init[i] != 0.0;
        assert rs[i] != 0.0;
      }
    }
  }

  /** Appending one reward: rewarded now exactly when it was before or the new reward is nonzero. */
  lemma RewardedAppend(rs: seq<real>, x: real)
    ensures Rewarded(rs + [x]) == (x != 0.0 || Rewarded(rs))
  {
    assert (rs + [x])[..|rs|] == rs;
  }

  /**
   * How an episode ends: the table, the number of draws used, the reward of
   * every step in order, and whether `done` was reached.
   */
  datatype EpisodeEnd = EpisodeEnd(table: Table, draws: nat, rewards: seq<real>, finished: bool)

  /**
   * The rest of an episode from `state`, with at most `fuel` more steps;
   * `rewards` holds the rewards of the steps already taken. The loop always
   * takes a first step, even if the start state is terminal.
   */
  function Episode(env: Env, h: Hyper, q: Table, state: nat, draws: nat, sample: nat -> nat,
                   rewards: seq<real>, fuel: nat): (e: EpisodeEnd)
    requires WellFormed(env) && ValidSamples(sample, env.numActions)
    requires Shaped(q, env.numStates, env.numActions) && state < env.numStates
    ensures Shaped(e.table, env.numStates, env.numActions)
    ensures rewards <= e.rewards && |e.rewards| <= |rewards| + fuel
    decreases fuel
  {
    if fuel == 0 then EpisodeEnd(q, draws, rewards, false)
    else
      var r := Step(env, h, q, state, draws, sample);
      if r.done then EpisodeEnd(r.table, r.draws, rewards + [r.reward], true)
      else Episode(env, h, r.table, r.next, r.draws, sample, rewards + [r.reward], fuel - 1)
  }

  /**
   * One step of an episode: an episode `e` with `fuel` steps to go, after the
   * step `r`, either ends with that step's reward appended or goes on from
   * where the step left it with one step less.
   */
  lemma EpisodeStep(env: Env, h: Hyper, q: Table, state: nat, draws: nat, sample: nat -> nat,
                    rewards: seq<real>, fuel: nat, left: nat, e: EpisodeEnd, r: StepResult)
    requires WellFormed(env) && ValidSamples(sample, env.numActions)
    requires Shaped(q, env.numStates, env.numActions) && state < env.numStates && fuel == left + 1
    requires e == Episode(env, h, q, state, draws, sample, rewards, fuel)
    requires r == Step(env, h, q, state, draws, sample)
    ensures r.done ==> e == EpisodeEnd(r.table, r.draws, rewards + [r.reward], true)
    ensures !r.done ==> e == Episode(env, h, r.table, r.next, r.draws, sample, rewards + [r.reward], left)
  {
  }

  /** The log entry of an episode: Success exactly when some step returned a nonzero reward. */
  function OutcomeOf(e: EpisodeEnd): Outcome {
    if Rewarded(e.rewards) then Success else Failure
  }

  /** The state of the run after some episodes; `completed` is false once an episode ran out of fuel. */
  datatype Run = Run(table: Table, outcomes: seq<Outcome>, draws: nat, completed: bool)

  /** The first `n` episodes, each started from `env.start` with the table the previous one left. */
  function Training(env: Env, h: Hyper, sample: nat -> nat, fuel: nat, n: nat): (r: Run)
    requires WellFormed(env) && ValidSamples(sample, env.numActions)
    ensures Shaped(r.table, env.numStates, env.numActions)
    decreases n
  {
    if n == 0 then Run(Zeros(env.numStates, env.numActions), [], 0, true)
    else
      var r := Training(env, h, sample, fuel, n - 1);
      if !r.completed then r
      else
        var e := Episode(env, h, r.table, env.start, r.draws, sample, [], fuel);
        Run(e.table, r.outcomes + [OutcomeOf(e)], e.draws, e.finished)
  }

  // ---------------------------------------------------------------------------
  // What an episode guarantees

  /** An episode preserves non-negativity of the table under the conditions of UpdatedNonNegative. */
  lemma {:induction false} EpisodeNonNegative(env: Env, h: Hyper, q: Table, state: nat, draws: nat, sample: nat -> nat,
                                              rewards: seq<real>, fuel: nat)
    requires WellFormed(env) && ValidSamples(sample, env.numActions) && NonNegativeRewards(env)
    requires 0.0 <= h.alpha <= 1.0 && h.gamma >= 0.0
    requires Shaped(q, env.numStates, env.numActions) && state < env.numStates && NonNegative(q)
    ensures NonNegative(Episode(env, h, q, state, draws, sample, rewards, fuel).table)
    decreases fuel
  {
    if fuel > 0 {
      var row := q[state];
      var a := ChooseAction(row, sample(draws));
      var t := env.step[state][a];
      UpdatedNonNegative(q, state, a, t.reward, t.next, h.alpha, h.gamma);
      var r := Step(env, h, q, state, draws, sample);
      if !r.done {
        EpisodeNonNegative(env, h, r.table, r.next, r.draws, sample, rewards + [r.reward], fuel - 1);
      }
    }
  }

  /** With a learning rate of zero an episode leaves the table as it found it. */
  lemma {:induction false} EpisodeAlphaZero(env: Env, h: Hyper, q: Table, state: nat, draws: nat, sample: nat -> nat,
                                            rewards: seq<real>, fuel: nat)
    requires WellFormed(env) && ValidSamples(sample, env.numActions) && h.alpha == 0.0
    requires Shaped(q, env.numStates, env.numActions) && state < env.numStates
    ensures Episode(env, h, q, state, draws, sample, rewards, fuel).table == q
    decreases fuel
  {
    if fuel > 0 {
      var row := q[state];
      var a := ChooseAction(row, sample(draws));
      var t := env.step[state][a];
      UpdatedAlphaZero(q, state, a, t.reward, t.next, h.gamma);
      var r := Step(env, h, q, state, draws, sample);
      if !r.done {
        EpisodeAlphaZero(env, h, r.table, r.next, r.draws, sample, rewards + [r.reward], fuel - 1);
      }
    }
  }

  // ---------------------------------------------------------------------------
  // What the whole run guarantees

  /** One outcome per episode started; all of them when no episode ran out of fuel. */
  lemma {:induction false} TrainingLength(env: Env, h: Hyper, sample: nat -> nat, fuel: nat, n: nat)
    requires WellFormed(env) && ValidSamples(sample, env.numActions)
    ensures var r := Training(env, h, sample, fuel, n);
            |r.outcomes| <= n && (r.completed ==> |r.outcomes| == n) && (!r.completed ==> |r.outcomes| > 0)
  {
    if n > 0 {
      TrainingLength(env, h, sample, fuel, n - 1);
    }
  }

  /** After an episode runs out of fuel, further episodes change nothing. */
  lemma {:induction false} TrainingStops(env: Env, h: Hyper, sample: nat -> nat, fuel: nat, m: nat, n: nat)
    requires WellFormed(env) && ValidSamples(sample, env.numActions)
    requires m <= n && !Training(env, h, sample, fuel, m).completed
    ensures Training(env, h, sample, fuel, n) == Training(env, h, sample, fuel, m)
    decreases n
  {
    if m < n {
      TrainingStops(env, h, sample, fuel, m, n - 1);
    }
  }

  /** Outcomes of earlier episodes are never changed by later ones. */
  lemma {:induction false} TrainingPrefix(env: Env, h: Hyper, sample: nat -> nat, fuel: nat, m: nat, n: nat)
    requires WellFormed(env) && ValidSamples(sample, env.numActions) && m <= n
    ensures Training(env, h, sample, fuel, m).outcomes <= Training(env, h, sample, fuel, n).outcomes
    decreases n
  {
    if m < n {
      TrainingPrefix(env, h, sample, fuel, m, n - 1);
    }
  }

  /**
   * Outcome i is the log entry of episode i, which starts from `env.start` with
   * the table and draw count that the first i episodes left.
   */
  lemma {:induction false} TrainingEpisode(env: Env, h: Hyper, sample: nat -> nat, fuel: nat, n: nat, i: nat)
    requires WellFormed(env) && ValidSamples(sample, env.numActions)
    requires i < |Training(env, h, sample, fuel, n).outcomes|
    ensures var before := Training(env, h, sample, fuel, i);
            && before.completed
            && Training(env, h, sample, fuel, n).outcomes[i]
               == OutcomeOf(Episode(env, h, before.table, env.start, before.draws, sample, [], fuel))
    decreases n
  {
    var prev := Training(env, h, sample, fuel, n - 1);
    TrainingLength(env, h, sample, fuel, n - 1);
    if i < |prev.outcomes| {
      TrainingPrefix(env, h, sample, fuel, n - 1, n);
      TrainingEpisode(env, h, sample, fuel, n - 1, i);
      assert Training(env, h, sample, fuel, n).outcomes[i] == prev.outcomes[i];
    } else {
      assert prev.completed && i == n - 1;
      var e := Episode(env, h, prev.table, env.start, prev.draws, sample, [], fuel);
      assert Training(env, h, sample, fuel, n).outcomes == prev.outcomes + [OutcomeOf(e)];
    }
  }

  /** Outcome i is Success exactly when some step of episode i returned a nonzero reward. */
  lemma TrainingOutcome(env: Env, h: Hyper, sample: nat -> nat, fuel: nat, n: nat, i: nat)
    requires WellFormed(env) && ValidSamples(sample, env.numActions)
    requires i < |Training(env, h, sample, fuel, n).outcomes|
    ensures var before := Training(env, h, sample, fuel, i);
            var e := Episode(env, h, before.table, env.start, before.draws, sample, [], fuel);
            (Training(env, h, sample, fuel, n).outcomes[i] == Success
             <==> exists k :: 0 <= k < |e.rewards| && e.rewards[k] != 0.0)
  {
    TrainingEpisode(env, h, sample, fuel, n, i);
    var before := Training(env, h, sample, fuel, i);
    RewardedSome(Episode(env, h, before.table, env.start, before.draws, sample, [], fuel).rewards);
  }

  /** Under non-negative rewards, alpha in [0, 1] and gamma >= 0, the table never goes negative. */
  lemma {:induction false} TrainingNonNegative(env: Env, h: Hyper, sample: nat -> nat, fuel: nat, n: nat)
    requires WellFormed(env) && ValidSamples(sample, env.numActions) && NonNegativeRewards(env)
    requires 0.0 <= h.alpha <= 1.0 && h.gamma >= 0.0
    ensures NonNegative(Training(env, h, sample, fuel, n).table)
  {
    if n > 0 {
      TrainingNonNegative(env, h, sample, fuel, n - 1);
      var r := Training(env, h, sample, fuel, n - 1);
      if r.completed {
        EpisodeNonNegative(env, h, r.table, env.start, r.draws, sample, [], fuel);
      }
    }
  }

  /** With a learning rate of zero the table after training is still all zeros. */
  lemma {:induction false} TrainingAlphaZero(env: Env, h: Hyper, sample: nat -> nat, fuel: nat, n: nat)
    requires WellFormed(env) && ValidSamples(sample, env.numActions) && h.alpha == 0.0
    ensures Training(env, h, sample, fuel, n).table == Zeros(env.numStates, env.numActions)
  {
    if n > 0 {
      TrainingAlphaZero(env, h, sample, fuel, n - 1);
      var r := Training(env, h, sample, fuel, n - 1);
      if r.completed {
        EpisodeAlphaZero(env, h, r.table, env.start, r.draws, sample, [], fuel);
      }
    }
  }
}
