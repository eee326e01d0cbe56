/**
 * The environment the agent trains against. The script builds a deterministic
 * FrozenLake grid world through an external simulation library; here that
 * collaborator is reduced to what the training loop observes of it: the
 * number of states and actions, the state `reset()` yields, and the outcome of
 * `step(action)` in each state, given as a transition table. The library's
 * 100-step time limit on an episode is not part of this model.
 */
module Environment {

  /** What one `step(action)` returns: the next state, the reward and the terminal flag. */
  datatype Transition = Transition(next: nat, reward: real, done: bool)

  /**
   * A discrete environment with `numStates` states (observation_space.n) and
   * `numActions` actions (action_space.n). `start` is what `reset()` returns;
   * `step[s][a]` is what `step(a)` returns when the agent is in state `s`.
   */
  datatype Env = Env(numStates: nat, numActions: nat, start: nat, step: seq<seq<Transition>>)

  /** The table covers every state and action, and every step lands on a state of the environment. */
  ghost predicate WellFormed(env: Env) {
    && env.numActions > 0
    && env.start < env.numStates
    && |env.step| == env.numStates
    && (forall s :: 0 <= s < |env.step| ==> |env.step[s]| == env.numActions)
    && (forall s, a :: 0 <= s < |env.step| && 0 <= a < |env.step[s]| ==> env.step[s][a].next < env.numStates)
  }

  /** Every reward the environment can hand out is non-negative (FrozenLake pays 0 or 1). */
  ghost predicate NonNegativeRewards(env: Env) {
    forall s, a :: 0 <= s < |env.step| && 0 <= a < |env.step[s]| ==> env.step[s][a].reward >= 0.0
  }

  /**
   * The random source behind `action_space.sample()`, made explicit: the k-th
   * call returns `sample(k)`, always a valid action index.
   */
  ghost predicate ValidSamples(sample: nat -> nat, numActions: nat) {
    forall k :: sample(k) < numActions
  }
}
