# Tabular Q-learning on a discrete environment

`rl.py` trains an agent on the deterministic FrozenLake grid by tabular
Q-learning:

- The Q-table starts as all zeros, with one row per state and one column per action.
- Each of the 1000 episodes resets the environment and logs `"Failure"`.
  It then steps until the environment reports `done`.
- At each step the agent takes the argmax of the current row when that row's
  maximum is positive. Otherwise it takes a random action.
- After each step it moves `Q[s, a]` a fraction `alpha` toward
  `reward + gamma * max Q[s']`.
- A step with a nonzero reward overwrites the episode's log entry with `"Success"`.

This project models that loop in Dafny in three layers:

- `environment.dfy` (module `Environment`) reduces the simulation library to
  what the loop observes:
  - the number of states and actions;
  - the state `reset()` returns;
  - a transition table giving `step(a)` in each state.

  The random source behind `action_space.sample()` is an explicit stream
  `sample: nat -> nat`. The k-th random action is `sample(k)`.
- `qlearning.dfy` (module `QLearning`) is the run as values:
  - the all-zero table, `np.max` / `np.argmax` over a row, and the policy;
  - the temporal-difference update;
  - one step (`Step`), one episode (`Episode`) and the first n episodes (`Training`).

  It also holds the lemmas about them.
- `trainer.dfy` (module `Trainer`) is the script as it runs:
  - the class `QTable` holds the table in a two-dimensional array, updated one
    cell at a time;
  - the methods `TakeStep`, `RunEpisode` and `Train` hold the step loop and the
    episode loop;
  - the outcome log gets one entry per episode, and its last entry is
    overwritten in place.

  Each method's postcondition ties its result and the new table to the
  value-level functions.
- `bandit.dfy` (module `Bandit`) runs the whole loop in a one-state,
  two-action environment:
  - action 0 ends the episode with reward 1;
  - action 1 ends it with reward 0.

  It proves what training does there.

The Q-learning update is the one the code writes, and it applies on every step,
including the terminal one. There, the target still adds
`gamma * max Q[next]` for the state the agent lands in.

In FrozenLake the terminal states' rows are never written, so they stay zero.
In the one-state environment, however, the landing state is the state being
updated. A paid episode therefore moves `Q[0, 0]` from x to
`x + alpha * (1 + gamma * x - x)`.

One might expect `Q[0, 0]` to settle at the reward 1.0. The code does not do
that:

- after a rewarded episode every further episode moves `Q[0, 0]` from x to
  `TdTarget(x, 1, alpha, gamma, x)`, and with gamma > 0 that rises while x is
  at most 1 (`BanditValueClimbs`);
- from any x >= 1 that step lands at 1 + alpha * gamma or higher
  (`SelfBootstrapAboveOne`). So once `Q[0, 0]` has reached 1, every later value
  stays at least alpha * gamma above 1;
- the step's only fixed point is x = 1 / (1 - gamma), which is 10 for
  gamma = 0.9, and it rises exactly while x is below it (`SelfBootstrapRises`);
- with `alpha = 0.5` and `gamma = 0.9`, `Q[0, 0]` reads 0.5, 0.975 and 1.42625
  after three paid episodes (`BanditPassesOne`).

The model follows the code.

The loop checks `done` only after a step. So an episode always takes at least
one step, even when the reset state is terminal. The model does the same.

## Model

| member | source | states |
|---|---|---|
| QLearning.Zeros | rl.py:13 | the initial table has one row per state and one column per action, and every entry is 0 |
| Trainer.QTable.constructor | rl.py:13 | a fresh array of the environment's shape whose contents are the all-zero table |
| QLearning.RowMax | rl.py:37 | `np.max` of a row is an entry of the row and no entry exceeds it |
| QLearning.Argmax | rl.py:38 | `np.argmax` returns an index inside the row |
| QLearning.ArgmaxFirstMax | rl.py:38 | `np.argmax` is the first index holding the row's maximum: it holds the maximum and every earlier entry is strictly smaller |
| QLearning.RowMaxExtend | rl.py:37 | the maximum of a one-longer prefix moves to the new entry only when that entry is strictly larger |
| QLearning.ArgmaxExtend | rl.py:38 | the argmax of a one-longer prefix moves to the new index only when its entry is strictly larger than the entry at the old argmax |
| QLearning.ChooseAction | rl.py:37-42 | the chosen action is a valid action whenever the random draw is |
| QLearning.ChooseActionCases | rl.py:37-42 | with a positive row maximum the action is the first index holding the maximum; otherwise it is exactly the random draw |
| QLearning.ExploresOnlyOnZeroRow | rl.py:37-42 | on a row with no negative entry, the agent explores exactly when every entry of the row is zero |
| Trainer.QTable.Max | rl.py:37 | the array scan returns the maximum of row s of the table |
| Trainer.QTable.Argmax | rl.py:38 | the array scan returns the first index of row s holding its maximum |
| Trainer.QTable.ChooseAction | rl.py:37-42 | the action is a valid one and is the policy's choice; the draw count advances exactly when the agent explores |
| QLearning.TdTargetBetween | rl.py:48-49 | with 0 <= alpha <= 1 the new estimate lies between the old estimate and the target `reward + gamma * max Q[s']` |
| QLearning.TdTargetNonNegative | rl.py:48-49 | non-negative estimate, reward and next maximum, with alpha in [0, 1] and gamma >= 0, give a non-negative new estimate |
| QLearning.Updated | rl.py:48-49 | the update keeps the table's shape |
| QLearning.UpdatedCells | rl.py:48-49 | cell (s, a) becomes `Q[s][a] + alpha * (reward + gamma * max Q[s'] - Q[s][a])` and every other cell keeps its value |
| QLearning.UpdatedAlphaZero | rl.py:48-49 | a learning rate of 0 leaves the table unchanged |
| QLearning.UpdatedGammaZero | rl.py:48-49 | a discount of 0 makes the new estimate independent of the next state's row |
| QLearning.UpdatedNonNegative | rl.py:48-49 | with non-negative rewards, alpha in [0, 1] and gamma >= 0, a non-negative table stays non-negative |
| Trainer.QTable.Update | rl.py:48-49 | the array cell (s, a) takes the new estimate, every other cell keeps its value, and the contents are the updated table |
| QLearning.Step | rl.py:36-52 | one step keeps the table's shape and lands on a state of the environment |
| Trainer.TakeStep | rl.py:36-52 | the method's next state, draw count, reward, `done` flag and new table are exactly those of one step from the old table |
| QLearning.RewardedSome | rl.py:55-56 | an episode's log entry is Success exactly when some step's reward is nonzero |
| QLearning.RewardedAppend | rl.py:55-56 | after one more step the episode counts as rewarded exactly when it was before or the new reward is nonzero |
| QLearning.Episode | rl.py:28-56 | an episode keeps the table's shape and appends at most one reward per step to those already recorded |
| QLearning.EpisodeStep | rl.py:35-52 | an episode is one step followed by either its end (when `done`) or the rest of the episode from the step's next state |
| Trainer.RunEpisode | rl.py:28-56 | the method leaves the table, draw count and `done` flag of the episode from the reset state, and appends that episode's outcome to the log |
| Trainer.LastReplaced | rl.py:56 | overwriting the log's last entry leaves the earlier entries alone |
| QLearning.Training | rl.py:27-56 | the table after any number of episodes keeps the environment's shape |
| Trainer.Train | rl.py:13-56 | the loop returns a fresh table whose contents, the outcome log and the completion flag are those of the specified run of `episodes` episodes |
| QLearning.EpisodeNonNegative | rl.py:35-52 | under non-negative rewards, alpha in [0, 1] and gamma >= 0, an episode keeps a non-negative table non-negative |
| QLearning.EpisodeAlphaZero | rl.py:35-52 | with alpha = 0 an episode leaves the table as it found it |
| QLearning.TrainingLength | rl.py:27-32 | there is one log entry per episode started, at most n, and exactly n when every episode reached `done` |
| QLearning.TrainingStops | rl.py:27-35 | once an episode does not reach `done`, further episodes change nothing |
| QLearning.TrainingPrefix | rl.py:27-32 | later episodes never change the log entries of earlier ones |
| QLearning.TrainingEpisode | rl.py:27-56 | log entry i is the outcome of episode i, which starts from the reset state with the table and draw count that the first i episodes left |
| QLearning.TrainingOutcome | rl.py:27-56 | log entry i is Success exactly when some step of episode i returned a nonzero reward |
| QLearning.TrainingNonNegative | rl.py:27-56 | under non-negative rewards, alpha in [0, 1] and gamma >= 0, the table never holds a negative entry |
| QLearning.TrainingAlphaZero | rl.py:27-56 | with alpha = 0 the table after training is still all zeros |
| Bandit.BandedRowMax | rl.py:37 | in a row [x, 0] with x >= 0 the maximum is x |
| Bandit.BanditStep | rl.py:35-56 | in the two-arm environment a step always ends the episode: a positive estimate for action 0 means exploiting it and being paid without a draw; a zero estimate means taking the draw, which pays exactly when it is action 0; a paid step writes `TdTarget(x, 1, alpha, gamma, x)` |
| Bandit.BanditEpisode | rl.py:28-56 | in the two-arm environment every episode is exactly one step, and it logs Success exactly when that step paid |
| Bandit.BanditRun | rl.py:27-56 | an independent closed description of training in the two-arm environment, with one log entry per episode |
| Bandit.BanditEpisodeArms | rl.py:28-56 | one episode from `[[x, 0]]` finishes, is paid exactly when x > 0 or the next draw is action 0, and leaves the table and draw count that BanditRun's next step computes |
| Bandit.BanditMatches | rl.py:13-56 | training in the two-arm environment always completes and its table, log and draw count are those of BanditRun |
| Bandit.BanditRunInvariant | rl.py:27-56 | after any number of episodes x >= 0, x > 0 exactly when some episode succeeded, and no Failure follows a Success in the log |
| Bandit.BanditRunFirst | rl.py:37-42 | the first episode succeeds exactly when the first random draw is action 0 |
| Bandit.OnceRewardedAlwaysRewarded | rl.py:27-56 | training completes with one entry per episode; once an episode succeeds every later one does; the first succeeds exactly when the first draw is action 0, and then all succeed |
| Bandit.SuccessFromFirst | rl.py:55-56 | a log that never follows Success with Failure and starts with Success is all Success |
| Bandit.BanditValueClimbs | rl.py:48-49 | after a rewarded episode every further episode moves x to `TdTarget(x, 1, alpha, gamma, x)`; with gamma > 0 this rises while x <= 1, and leaves x strictly above 1 once it has reached 1 |
| Bandit.SelfBootstrapClimbs | rl.py:48-49 | for 0 < alpha <= 1 and gamma > 0, `x + alpha * (1 + gamma * x - x)` exceeds x when 0 < x <= 1 and exceeds 1 when x >= 1 |
| Bandit.SelfBootstrapAboveOne | rl.py:48-49 | for 0 < alpha <= 1, gamma >= 0 and x >= 1, `x + alpha * (1 + gamma * x - x)` is at least 1 + alpha * gamma |
| Bandit.SelfBootstrapRises | rl.py:48-49 | for 0 < alpha <= 1, `x + alpha * (1 + gamma * x - x)` exceeds x exactly when (1 - gamma) * x < 1, and equals x exactly when (1 - gamma) * x = 1 |
| Bandit.BanditPassesOne | rl.py:16-18 | with alpha 0.5, gamma 0.9 and a first draw of action 0, `Q[0, 0]` is 0.5, 0.975 and 1.42625 after the first three episodes |

## Left out

- The simulation library is not part of this model. This covers `gym.make`,
  the FrozenLake map, `render` and the `info` value `step` returns. The
  environment is an explicit deterministic transition table, and `reset()`
  always returns the same start state. The non-slippery FrozenLake grid moves
  that way.
- The 100-step time limit is not modelled. `gym.make("FrozenLake-v1", ...)`
  wraps the grid in gym's time limit, which reports `done` after 100 steps even
  when the agent is not on a terminal cell. In the model `done` depends only on
  the state and the action, as given by the transition table.
- `action_space.sample()` is not modelled as a uniform random draw. It is an
  arbitrary stream of valid actions passed in as a parameter, so every
  property holds for every sequence of draws. No probabilistic statement, such
  as the chance that an action is discovered, is made.
- Floating point: the table holds mathematical reals. Rounding, overflow and
  NaN of numpy's float64 are not modelled.
- `while not done` is bounded by a per-episode step budget `fuel`. An episode
  that uses up the budget without `done` stops training with `completed` false.
  The script behaves differently there: its time limit ends the episode as a
  Failure after 100 steps, and training goes on with the next episode. The
  model proves nothing about runs that reach the budget beyond `TrainingStops`.
- The script's constants (1000 episodes, alpha 0.5, gamma 0.9) are not fixed.
  They come in as a parameter `Hyper`. `BanditPassesOne` uses 0.5 and 0.9.
- The prints of the table before and after training, and the bar chart of the
  outcomes (lines 23-24 and 58-70), are output only and are not modelled.
- The log entries are the two values `Success` and `Failure` rather than strings.
- Convergence of the table in general (for FrozenLake) is not proved. Only the
  one-state scenario is analysed to the end.
- A row with no actions is excluded: the environment must have at least one
  action. `np.max` raises on an empty row, and every discrete action space has
  at least one action.
