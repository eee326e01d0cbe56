/**
 * The training script as it runs: a Q-table held in a two-dimensional array
 * and updated in place cell by cell, an outcome list that gets one entry per
 * episode and has its last entry overwritten, and the episode loop wrapped
 * around the `while not done` step loop. Each operation is proved against the
 * value-level definitions of module QLearning.
 */
module Trainer {
  import opened Environment
  import opened QLearning

  /** The table `np.zeros((observation_space.n, action_space.n))` and what the loop does to it. */
  class QTable {
    const numStates: nat
    const numActions: nat
    const cells: array2<real>
    /** The table as values: Contents[s][a] is cells[s, a]. */
    ghost var Contents: Table

    ghost predicate Valid()
      reads this, cells
    {
      && cells.Length0 == numStates && cells.Length1 == numActions
      && Shaped(Contents, numStates, numActions)
      && forall s, a :: 0 <= s < numStates && 0 <= a < numActions ==> Contents[s][a] == cells[s, a]
    }

    /** A table of the given shape holding only zeros. */
    constructor (numStates: nat, numActions: nat)
      ensures Valid() && fresh(cells)
      ensures this.numStates == numStates && this.numActions == numActions
      ensures Contents == Zeros(numStates, numActions)
    {
      this.numStates := numStates;
      this.numActions := numActions;
      cells := new real[numStates, numActions]((_, _) => 0.0);
      Contents := Zeros(numStates, numActions);
    }

    /** `np.max(qtable[s])`: the largest value in row `s`. */
    method Max(s: nat) returns (m: real)
      requires Valid() && s < numStates && numActions > 0
      ensures m == RowMax(Contents[s])
    {
      ghost var row := Contents[s];
      m := cells[s, 0];
      var j := 1;
      while j < numActions
        invariant 1 <= j <= numActions
        invariant m == RowMax(row[..j])
      {
        RowMaxExtend(row, j);
        assert cells[s, j] == row[j];
        if cells[s, j] > m {
          m := cells[s, j];
        }
        j := j + 1;
      }
      assert row[..numActions] == row;
    }

    /** `np.argmax(qtable[s])`: the first index of row `s` that holds its maximum. */
    method Argmax(s: nat) returns (a: nat)
      requires Valid() && s < numStates && numActions > 0
      ensures a == QLearning.Argmax(Contents[s])
    {
      ghost var row := Contents[s];
      a := 0;
      var j := 1;
      while j < numActions
        invariant 1 <= j <= numActions
        invariant a == QLearning.Argmax(row[..j])
      {
        ArgmaxExtend(row, j);
        assert cells[s, j] == row[j] && cells[s, a] == row[a];
        if cells[s, j] > cells[s, a] {
          a := j;
        }
        j := j + 1;
      }
      assert row[..numActions] == row;
    }

    /**
     * The policy of the step loop: the argmax of row `s` when its maximum is
     * positive, otherwise the next random draw, which advances the draw count.
     */
    method ChooseAction(s: nat, sample: nat -> nat, draws: nat) returns (a: nat, draws': nat)
      requires Valid() && s < numStates && numActions > 0 && ValidSamples(sample, numActions)
      ensures a < numActions && a == QLearning.ChooseAction(Contents[s], sample(draws))
      ensures draws' == if RowMax(Contents[s]) > 0.0 then draws else draws + 1
    {
      var m := Max(s);
      if m > 0.0 {
        a := Argmax(s);
        draws' := draws;
      } else {
        a := sample(draws);
        draws' := draws + 1;
      }
    }

    /**
     * `qtable[s, a] = qtable[s, a] + alpha * (reward + gamma * np.max(qtable[next]) - qtable[s, a])`:
     * the one cell (s, a) takes the new estimate and every other cell keeps its value.
     */
    method Update(s: nat, a: nat, reward: real, next: nat, alpha: real, gamma: real)
      requires Valid() && s < numStates && a < numActions && next < numStates
      modifies this, cells
      ensures Valid()
      ensures Contents == Updated(old(Contents), s, a, reward, next, alpha, gamma)
      ensures cells[s, a] == old(cells[s, a]) + alpha * (reward + gamma * RowMax(old(Contents)[next]) - old(cells[s, a]))
      ensures forall i, j :: 0 <= i < numStates && 0 <= j < numActions && (i != s || j != a) ==> cells[i, j] == old(cells[i, j])
    {
      var m := Max(next);
      cells[s, a] := cells[s, a] + alpha * (reward + gamma * m - cells[s, a]);
      Contents := Updated(Contents, s, a, reward, next, alpha, gamma);
    }
  }

  /**
   * One iteration of the step loop up to the table update: choose an action,
   * step the environment, write the new estimate into the table.
   */
  method TakeStep(qtable: QTable, env: Env, h: Hyper, sample: nat -> nat, state: nat, draws0: nat)
    returns (next: nat, draws: nat, reward: real, done: bool)
    requires WellFormed(env) && ValidSamples(sample, env.numActions) && qtable.Valid()
    requires qtable.numStates == env.numStates && qtable.numActions == env.numActions
    requires state < env.numStates
    modifies qtable, qtable.cells
    ensures qtable.Valid()
    ensures StepResult(qtable.Contents, next, draws, reward, done) == Step(env, h, old(qtable.Contents), state, draws0, sample)
  {
    var action;
    action, draws := qtable.ChooseAction(state, sample, draws0);
    var t := env.step[state][action];
    qtable.Update(state, action, t.reward, t.next, h.alpha, h.gamma);
    next, reward, done := t.next, t.reward, t.done;
  }

  /**
   * One pass of the episode loop body: reset to `env.start`, log Failure, then
   * step until `done`, relabelling the entry Success when a step pays a
   * nonzero reward. Returns with `finished` false if `fuel` steps did not
   * reach `done`.
   */
  method RunEpisode(qtable: QTable, env: Env, h: Hyper, sample: nat -> nat, draws0: nat, fuel: nat, logged: seq<Outcome>)
    returns (draws: nat, outcomes: seq<Outcome>, finished: bool)
    requires WellFormed(env) && ValidSamples(sample, env.numActions) && qtable.Valid()
    requires qtable.numStates == env.numStates && qtable.numActions == env.numActions
    modifies qtable, qtable.cells
    ensures qtable.Valid()
    ensures var e := Episode(env, h, old(qtable.Contents), env.start, draws0, sample, [], fuel);
            qtable.Contents == e.table && draws == e.draws && finished == e.finished
            && outcomes == logged + [OutcomeOf(e)]
  {
    ghost var e := Episode(env, h, qtable.Contents, env.start, draws0, sample, [], fuel);
    ghost var rewards: seq<real> := [];
    draws := draws0;
    var state: nat := env.start;
    var done := false;
    var left: nat := fuel;
    outcomes := logged + [Failure];
    while !done && left > 0
      invariant qtable.Valid() && state < env.numStates
      invariant outcomes == logged + [if Rewarded(rewards) then Success else Failure]
      invariant done ==> e == EpisodeEnd(qtable.Contents, draws, rewards, true)
      invariant !done ==> e == Episode(env, h, qtable.Contents, state, draws, sample, rewards, left)
      decreases left
    {
      ghost var q0, stateBefore, drawsBefore, rewardsBefore, leftBefore := qtable.Contents, state, draws, rewards, left;
      var reward;
      state, draws, reward, done := TakeStep(qtable, env, h, sample, state, draws);
      RewardedAppend(rewards, reward);
      rewards := rewards + [reward];
      left := left - 1;
      EpisodeStep(env, h, q0, stateBefore, drawsBefore, sample, rewardsBefore, leftBefore, left, e,
                  StepResult(qtable.Contents, state, draws, reward, done));
      if reward != 0.0 {
        LastReplaced(logged, outcomes[|outcomes| - 1], Success);
        outcomes := outcomes[|outcomes| - 1 := Success];
      }
    }
    finished := done;
  }

  /** Overwriting the last entry of a log (`outcomes[-1] = ...`) leaves the earlier entries alone. */
  lemma LastReplaced<T>(logged: seq<T>, last: T, x: T)
    ensures (logged + [last])[|logged| := x] == logged + [x]
  {
  }

  /**
   * The training loop: `h.episodes` runs of the episode body against one
   * shared table. An episode that has not reached `done` after `fuel` steps
   * stops the run with `completed` false. The script's environment has a
   * 100-step time limit instead, which is not part of this model.
   */
  method Train(env: Env, h: Hyper, sample: nat -> nat, fuel: nat)
    returns (qtable: QTable, outcomes: seq<Outcome>, completed: bool)
    requires WellFormed(env) && ValidSamples(sample, env.numActions)
    ensures fresh(qtable) && qtable.Valid()
    ensures qtable.numStates == env.numStates && qtable.numActions == env.numActions
    ensures var r := Training(env, h, sample, fuel, h.episodes);
            qtable.Contents == r.table && outcomes == r.outcomes && completed == r.completed
  {
    qtable := new QTable(env.numStates, env.numActions);
    outcomes := [];
    completed := true;
    var draws := 0;
    var episode := 0;
    while episode < h.episodes
      invariant episode <= h.episodes
      invariant fresh(qtable) && fresh(qtable.cells) && qtable.Valid()
      invariant qtable.numStates == env.numStates && qtable.numActions == env.numActions
      invariant Training(env, h, sample, fuel, episode) == Run(qtable.Contents, outcomes, draws, true)
    {
      var finished;
      draws, outcomes, finished := RunEpisode(qtable, env, h, sample, draws, fuel, outcomes);
      if !finished {
        completed := false;
        TrainingStops(env, h, sample, fuel, episode + 1, h.episodes);
        break;
      }
      episode := episode + 1;
    }
  }
}
