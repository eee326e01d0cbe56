/**
 * The end-to-end scenario for the training loop: one state, two actions,
 * every step terminal; action 0 pays 1 and action 1 pays 0. The agent
 * explores until the first rewarded episode and exploits action 0 from then
 * on. Because the terminal step still bootstraps from the row of the state it
 * lands in, which is the same row, the estimate for action 0 does not settle
 * at the reward 1: it climbs past it.
 */
module Bandit {
  import opened Environment
  import opened QLearning

  /** The one-state environment: action 0 ends the episode with reward 1, action 1 with reward 0. */
  const TwoArm: Env := Env(1, 2, 0, [[Transition(0, 1.0, true), Transition(0, 0.0, true)]])

  /** A learning rate in (0, 1] and a non-negative discount. */
  ghost predicate Learning(h: Hyper) {
    0.0 < h.alpha <= 1.0 && h.gamma >= 0.0
  }

  /** The shape the table keeps in this environment: [[x, 0]] with x >= 0. */
  ghost predicate Banded(q: Table) {
    Shaped(q, 1, 2) && q[0][1] == 0.0 && q[0][0] >= 0.0
  }

  /** The largest value of a banded row is its first entry. */
  lemma BandedRowMax(q: Table)
    requires Banded(q)
    ensures RowMax(q[0]) == q[0][0]
  {
    assert q[0][..1] == [q[0][0]];
  }

  /**
   * One step from the only state. It always ends the episode. A positive
   * estimate for action 0 makes the policy take it and be paid; a zero one
   * makes the policy take the draw, which pays exactly when it is action 0.
   * A paid step writes the new estimate into cell (0, 0), and the table keeps
   * its banded shape.
   */
  lemma BanditStep(h: Hyper, q: Table, draws: nat, sample: nat -> nat)
    requires Learning(h) && ValidSamples(sample, 2) && Banded(q)
    ensures WellFormed(TwoArm)
    ensures var r := Step(TwoArm, h, q, 0, draws, sample);
            && r.done && r.next == 0 && Banded(r.table)
            && (r.reward != 0.0 <==> r.table[0][0] > 0.0)
            && (q[0][0] > 0.0 ==> r.reward == 1.0 && r.draws == draws)
            && (q[0][0] == 0.0 ==> r.draws == draws + 1 && (r.reward != 0.0 <==> sample(draws) == 0))
            && (r.reward != 0.0 ==> r.table[0][0] == TdTarget(q[0][0], 1.0, h.alpha, h.gamma, q[0][0]))
  {
    var row := q[0];
    var x := q[0][0];
    BandedRowMax(q);
    var a := ChooseAction(row, sample(draws));
    ChooseActionCases(row, sample(draws));
    var t := TwoArm.step[0][a];
    var q' := Updated(q, 0, a, t.reward, t.next, h.alpha, h.gamma);
    UpdatedCells(q, 0, a, t.reward, t.next, h.alpha, h.gamma);
    if x > 0.0 {
      assert a == 0;
      TdTargetBetween(x, 1.0, h.alpha, h.gamma, x);
      assert h.gamma * x >= 0.0;
      assert q'[0][0] > 0.0;
    } else if a == 0 {
      assert q'[0][0] == h.alpha;
    } else {
      assert q'[0][1] == 0.0;
    }
  }

  /** In this environment every episode is exactly one step long. */
  lemma BanditEpisode(h: Hyper, q: Table, draws: nat, sample: nat -> nat, fuel: nat)
    requires Learning(h) && ValidSamples(sample, 2) && Banded(q) && fuel > 0
    ensures WellFormed(TwoArm)
    ensures var r := Step(TwoArm, h, q, 0, draws, sample);
            var e := Episode(TwoArm, h, q, 0, draws, sample, [], fuel);
            && e == EpisodeEnd(r.table, r.draws, [r.reward], true)
            && (OutcomeOf(e) == Success <==> r.reward != 0.0)
  {
    BanditStep(h, q, draws, sample);
    var r := Step(TwoArm, h, q, 0, draws, sample);
    var e := Episode(TwoArm, h, q, 0, draws, sample, [], fuel);
    EpisodeStep(TwoArm, h, q, 0, draws, sample, [], fuel, fuel - 1, e, r);
    RewardedAppend([], r.reward);
    assert [] + [r.reward] == [r.reward];
  }


  /** A banded table is the one-row table [[x, 0]]. */
  lemma BandedIsOneRow(q: Table)
    requires Banded(q)
    ensures q == [[q[0][0], 0.0]]
  {
    assert q[0] == [q[0][0], 0.0];
  }

  /**
   * Where a run in this environment stands: the estimate x for action 0 (the
   * estimate for action 1 is always 0), the outcome log and the draws used.
   */
  datatype Arms = Arms(x: real, outcomes: seq<Outcome>, draws: nat)

  /**
   * The run written out for this environment alone: an episode is paid when
   * x is positive (the policy exploits action 0) or when the next draw is
   * action 0; a paid episode moves x to TdTarget(x, 1, alpha, gamma, x) and
   * logs Success, an unpaid one leaves x alone and logs Failure; only an
   * episode that starts with x = 0 uses a draw.
   */
  function BanditRun(h: Hyper, sample: nat -> nat, n: nat): (b: Arms)
    ensures |b.outcomes| == n
    decreases n
  {
    if n == 0 then Arms(0.0, [], 0)
    else
      var b := BanditRun(h, sample, n - 1);
      var paid := b.x > 0.0 || sample(b.draws) == 0;
      Arms(if paid then TdTarget(b.x, 1.0, h.alpha, h.gamma, b.x) else b.x,
           b.outcomes + [if paid then Success else Failure],
           if b.x > 0.0 then b.draws else b.draws + 1)
  }

  /**
   * One episode from the table [[x, 0]] with x >= 0: it finishes, is paid
   * exactly when BanditRun says so, and leaves the table and the draw count
   * BanditRun's next step computes.
   */
  lemma BanditEpisodeArms(h: Hyper, sample: nat -> nat, fuel: nat, b: Arms)
    requires Learning(h) && ValidSamples(sample, 2) && fuel > 0 && b.x >= 0.0
    ensures WellFormed(TwoArm) && Shaped([[b.x, 0.0]], 1, 2)
    ensures var e := Episode(TwoArm, h, [[b.x, 0.0]], 0, b.draws, sample, [], fuel);
            var paid := b.x > 0.0 || sample(b.draws) == 0;
            && e.finished
            && e.draws == (if b.x > 0.0 then b.draws else b.draws + 1)
            && (OutcomeOf(e) == Success <==> paid)
            && e.table == [[if paid then TdTarget(b.x, 1.0, h.alpha, h.gamma, b.x) else b.x, 0.0]]
  {
    var q := [[b.x, 0.0]];
    BanditEpisode(h, q, b.draws, sample, fuel);
    BanditStep(h, q, b.draws, sample);
    BandedIsOneRow(Step(TwoArm, h, q, 0, b.draws, sample).table);
  }

  /**
   * Training in the two-arm environment is the run written out above: after
   * n episodes the table is [[x, 0]] with x >= 0, and the log and the draw
   * count are BanditRun's.
   */
  lemma {:induction false} BanditMatches(h: Hyper, sample: nat -> nat, fuel: nat, n: nat)
    requires Learning(h) && ValidSamples(sample, 2) && fuel > 0
    ensures var b := BanditRun(h, sample, n);
            b.x >= 0.0 && Training(TwoArm, h, sample, fuel, n) == Run([[b.x, 0.0]], b.outcomes, b.draws, true)
    decreases n
  {
    if n > 0 {
      BanditMatches(h, sample, fuel, n - 1);
      var b := BanditRun(h, sample, n - 1);
      BanditEpisodeArms(h, sample, fuel, b);
      BanditRunInvariant(h, sample, n);
      var e := Episode(TwoArm, h, [[b.x, 0.0]], 0, b.draws, sample, [], fuel);
      assert Training(TwoArm, h, sample, fuel, n) == Run(e.table, b.outcomes + [OutcomeOf(e)], e.draws, e.finished);
      var paid := b.x > 0.0 || sample(b.draws) == 0;
      assert OutcomeOf(e) == if paid then Success else Failure;
    } else {
      assert Zeros(1, 2)[0] == [0.0, 0.0];
    }
  }

  /**
   * What holds after every number of episodes: x >= 0, x is positive exactly
   * when some episode succeeded, and no Failure is ever logged after a
   * Success.
   */
  ghost predicate ArmsInvariant(b: Arms) {
    && b.x >= 0.0
    && (b.x > 0.0 <==> Success in b.outcomes)
    && (forall i, j :: 0 <= i < j < |b.outcomes| && b.outcomes[i] == Success ==> b.outcomes[j] == Success)
  }

  lemma {:induction false} BanditRunInvariant(h: Hyper, sample: nat -> nat, n: nat)
    requires Learning(h)
    ensures ArmsInvariant(BanditRun(h, sample, n))
    decreases n
  {
    if n > 0 {
      BanditRunInvariant(h, sample, n - 1);
      var b := BanditRun(h, sample, n - 1);
      var b' := BanditRun(h, sample, n);
      assert forall i :: 0 <= i < n - 1 ==> b'.outcomes[i] == b.outcomes[i];
      if b.x > 0.0 || sample(b.draws) == 0 {
        TdTargetBetween(b.x, 1.0, h.alpha, h.gamma, b.x);
        assert h.gamma * b.x >= 0.0;
        assert b'.outcomes[n - 1] == Success;
      } else {
        assert Success !in b.outcomes;
        assert b'.outcomes == b.outcomes + [Failure];
      }
    }
  }

  /** The first episode starts from x = 0, so it is paid exactly when the first draw is action 0. */
  lemma {:induction false} BanditRunFirst(h: Hyper, sample: nat -> nat, n: nat)
    requires n > 0
    ensures BanditRun(h, sample, n).outcomes[0] == Success <==> sample(0) == 0
    decreases n
  {
    if n > 1 {
      BanditRunFirst(h, sample, n - 1);
      assert BanditRun(h, sample, n).outcomes[0] == BanditRun(h, sample, n - 1).outcomes[0];
    }
  }

  /**
   * Once an episode is rewarded every later one is, and the first episode is
   * rewarded exactly when the first random draw is action 0 (the table starts
   * all zero, so the first action is always a draw).
   */
  lemma OnceRewardedAlwaysRewarded(h: Hyper, sample: nat -> nat, fuel: nat, n: nat)
    requires Learning(h) && ValidSamples(sample, 2) && fuel > 0
    ensures var run := Training(TwoArm, h, sample, fuel, n);
            && run.completed && |run.outcomes| == n
            && (forall i, j :: 0 <= i < j < n && run.outcomes[i] == Success ==> run.outcomes[j] == Success)
            && (n > 0 ==> (run.outcomes[0] == Success <==> sample(0) == 0))
            && (sample(0) == 0 ==> forall i :: 0 <= i < n ==> run.outcomes[i] == Success)
  {
    BanditMatches(h, sample, fuel, n);
    var b := BanditRun(h, sample, n);
    BanditRunInvariant(h, sample, n);
    if n > 0 {
      BanditRunFirst(h, sample, n);
      if sample(0) == 0 {
        SuccessFromFirst(b.outcomes);
      }
    }
  }

  /** A log that never follows a Success with a Failure and starts with a Success is all Success. */
  lemma SuccessFromFirst(log: seq<Outcome>)
    requires |log| > 0 && log[0] == Success
    requires forall i, j :: 0 <= i < j < |log| && log[i] == Success ==> log[j] == Success
    ensures forall i :: 0 <= i < |log| ==> log[i] == Success
  {
    forall i | 0 < i < |log|
      ensures log[i] == Success
    {
      assert log[0] == Success;
    }
  }

  /**
   * After a rewarded episode every further episode moves the estimate x for
   * action 0 to TdTarget(x, 1, alpha, gamma, x), that is
   * x + alpha * (1 + gamma * x - x): the target includes the discounted value
   * of the row the terminal step lands in, which is x itself. With a positive
   * discount the estimate rises while it is at most 1, and once it has
   * reached 1 the next episode leaves it strictly above 1.
   */
  lemma BanditValueClimbs(h: Hyper, sample: nat -> nat, fuel: nat, n: nat)
    requires Learning(h) && ValidSamples(sample, 2) && fuel > 0 && n > 0
    ensures var x := Training(TwoArm, h, sample, fuel, n - 1).table[0][0];
            var x' := Training(TwoArm, h, sample, fuel, n).table[0][0];
            && (x > 0.0 ==> x' == TdTarget(x, 1.0, h.alpha, h.gamma, x))
            && (x > 0.0 && h.gamma > 0.0 && x <= 1.0 ==> x' > x)
            && (x >= 1.0 && h.gamma > 0.0 ==> x' > 1.0)
  {
    BanditMatches(h, sample, fuel, n - 1);
    BanditMatches(h, sample, fuel, n);
    SelfBootstrapClimbs(BanditRun(h, sample, n - 1).x, h.alpha, h.gamma);
  }

  /**
   * The arithmetic of a paid step that bootstraps from its own estimate x:
   * the new estimate x + alpha * (1 + gamma * x - x) exceeds x while
   * 0 < x <= 1 and exceeds 1 once x >= 1, for 0 < alpha <= 1 and gamma > 0.
   */
  lemma SelfBootstrapClimbs(x: real, alpha: real, gamma: real)
    requires 0.0 < alpha <= 1.0
    ensures var x' := TdTarget(x, 1.0, alpha, gamma, x);
            && (x > 0.0 && gamma > 0.0 && x <= 1.0 ==> x' > x)
            && (x >= 1.0 && gamma > 0.0 ==> x' > 1.0)
  {
    var x' := TdTarget(x, 1.0, alpha, gamma, x);
    if x > 0.0 && gamma > 0.0 {
      assert gamma * x > 0.0;
      assert alpha * (gamma * x) > 0.0;
      assert x' == x + alpha * (1.0 - x) + alpha * (gamma * x);
      if x <= 1.0 {
        assert alpha * (1.0 - x) >= 0.0;
      }
      if x >= 1.0 {
        assert (1.0 - alpha) * (x - 1.0) >= 0.0;
        assert x' - 1.0 == (1.0 - alpha) * (x - 1.0) + alpha * (gamma * x);
      }
    }
  }

  /**
   * The same step from x >= 1, with gamma >= 0, lands at least alpha * gamma
   * above 1: once the estimate has reached 1 it stays a fixed distance above it.
   */
  lemma SelfBootstrapAboveOne(x: real, alpha: real, gamma: real)
    requires 0.0 < alpha <= 1.0 && gamma >= 0.0 && x >= 1.0
    ensures TdTarget(x, 1.0, alpha, gamma, x) >= 1.0 + alpha * gamma
  {
    assert (1.0 - alpha) * (x - 1.0) >= 0.0;
    assert alpha * gamma * (x - 1.0) >= 0.0;
    assert TdTarget(x, 1.0, alpha, gamma, x) - 1.0
        == (1.0 - alpha) * (x - 1.0) + alpha * gamma * (x - 1.0) + alpha * gamma;
  }

  /**
   * The same step rises exactly while (1 - gamma) * x < 1 and stays put
   * exactly when (1 - gamma) * x = 1: its only fixed point is
   * 1 / (1 - gamma), not the reward 1.
   */
  lemma SelfBootstrapRises(x: real, alpha: real, gamma: real)
    requires 0.0 < alpha <= 1.0
    ensures TdTarget(x, 1.0, alpha, gamma, x) > x <==> (1.0 - gamma) * x < 1.0
    ensures TdTarget(x, 1.0, alpha, gamma, x) == x <==> (1.0 - gamma) * x == 1.0
  {
    var d := 1.0 - (1.0 - gamma) * x;
    assert TdTarget(x, 1.0, alpha, gamma, x) - x == alpha * d;
    if d > 0.0 {
      assert alpha * d > 0.0;
    } else if d < 0.0 {
      assert alpha * d < 0.0;
    }
  }

  /**
   * With alpha = 0.5, gamma = 0.9 and a first draw of action 0, the estimate
   * for action 0 is 0.5, 0.975 and 1.42625 after the first three episodes.
   */
  lemma BanditPassesOne(episodes: nat, sample: nat -> nat, fuel: nat)
    requires ValidSamples(sample, 2) && sample(0) == 0 && fuel > 0
    ensures var h := Hyper(episodes, 0.5, 0.9);
            && Training(TwoArm, h, sample, fuel, 1).table[0][0] == 0.5
            && Training(TwoArm, h, sample, fuel, 2).table[0][0] == 0.975
            && Training(TwoArm, h, sample, fuel, 3).table[0][0] == 1.42625
  {
    var h := Hyper(episodes, 0.5, 0.9);
    BanditMatches(h, sample, fuel, 1);
    BanditMatches(h, sample, fuel, 2);
    BanditMatches(h, sample, fuel, 3);
    assert BanditRun(h, sample, 1).x == 0.5;
    assert BanditRun(h, sample, 2).x == 0.975;
    assert BanditRun(h, sample, 3).x == 1.42625;
  }
}
