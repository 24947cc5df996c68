/** No infinite run of the fan-in burst is fair: it ends in the owner's spinning, beside a thread that could move. */
module FanInFairness {
  import opened FanIn
  import opened FanInInvariant
  import opened FanInMemory
  import opened FanInSteps
  import opened FanInProgress

  /** The `i`-th step leads from the `i`-th state to the next. */
  ghost predicate StepsAt(c: Config, states: nat -> State, steps: nat -> Step, i: nat)
    requires Valid(c)
  {
    Enabled(c, states(i), steps(i)) && states(i + 1) == Next(c, states(i), steps(i))
  }

  ghost predicate InfiniteRun(c: Config, states: nat -> State, steps: nat -> Step)
    requires Valid(c)
  {
    Initial(c, states(0)) && forall i: nat :: StepsAt(c, states, steps, i)
  }

  lemma {:induction false} AlwaysInv(c: Config, states: nat -> State, steps: nat -> Step, i: nat)
    requires Valid(c) && InfiniteRun(c, states, steps)
    ensures Inv(c, states(i))
  {
    hide Inv, Initial, Next, Enabled;
    if i == 0 {
      InitialInv(c, states(0));
    } else {
      AlwaysInv(c, states, steps, i - 1);
      assert StepsAt(c, states, steps, i - 1);
      NextKeepsInv(c, states(i - 1), steps(i - 1));
    }
  }

  /** Work never gets less along a run. */
  lemma {:induction false} WorkGrows(c: Config, states: nat -> State, steps: nat -> Step, m: nat, i: nat)
    requires Valid(c) && InfiniteRun(c, states, steps) && m <= i
    ensures Progress(c, states(m)) <= Progress(c, states(i))
    decreases i
  {
    hide Inv, Initial, Next, Enabled, Progress, Spins, TotalWork;
    if m < i {
      WorkGrows(c, states, steps, m, i - 1);
      AlwaysInv(c, states, steps, i - 1);
      assert StepsAt(c, states, steps, i - 1);
      EveryStepProgresses(c, states(i - 1), steps(i - 1));
    }
  }

  /** From some point on an infinite run only spins. */
  lemma {:induction false} EventuallySpins(c: Config, states: nat -> State, steps: nat -> Step, m: nat)
    returns (n: nat)
    requires Valid(c) && InfiniteRun(c, states, steps)
    ensures forall i: nat | i >= n :: Spins(states(i), steps(i))
    decreases TotalWork(c) - Progress(c, states(m))
  {
    hide Inv, Initial, Next, Enabled, Progress, Spins, InfiniteRun;
    if forall i: nat | i >= m :: Spins(states(i), steps(i)) {
      n := m;
    } else {
      var i: nat :| i >= m && !Spins(states(i), steps(i));
      WorkAdded(c, states, steps, m, i);
      n := EventuallySpins(c, states, steps, i + 1);
    }
  }

  lemma WorkAdded(c: Config, states: nat -> State, steps: nat -> Step, m: nat, i: nat)
    requires Valid(c) && InfiniteRun(c, states, steps) && m <= i && !Spins(states(i), steps(i))
    ensures Progress(c, states(m)) < Progress(c, states(i + 1)) <= TotalWork(c)
  {
    hide Inv, Initial, Next, Enabled, Progress, Spins;
    WorkGrows(c, states, steps, m, i);
    AlwaysInv(c, states, steps, i);
    AlwaysInv(c, states, steps, i + 1);
    assert StepsAt(c, states, steps, i);
    EveryStepProgresses(c, states(i), steps(i));
    ProgressBound(c, states(i + 1));
  }

  /** While the owner spins, some other thread can move. */
  lemma OthersCanMove(c: Config, s: State, spin: Step) returns (step: Step)
    requires Valid(c) && Inv(c, s) && Enabled(c, s, spin) && Spins(s, spin)
    ensures !step.OwnerStep? && Enabled(c, s, step)
  {
    assert s.start.generation == 1 && s.coordinator != Ended;
    OpensOnlyIfGranted(c, s);
    step := NeverStuck(c, s);
  }

  /** And spinning does not take that away. */
  lemma SpinsDisableNobody(c: Config, s: State, spin: Step, step: Step)
    requires Valid(c) && Inv(c, s) && Enabled(c, s, spin) && Spins(s, spin)
    requires !step.OwnerStep? && Enabled(c, s, step)
    ensures Enabled(c, Next(c, s, spin), step)
  {
    assert s.coordinator != JoiningOwner && s.coordinator != Allocating;
    hide Inv, OwnerNext, OwnerEnabled;
    OwnerSlots(c, s, spin.given);
    OwnerAdvances(c, s, spin.given);
    OwnerEffect(c, s, spin.given);
  }

  /**
    * In every infinite run, from some point on only the owner moves, while one and the same step of another
    * thread could be taken all the time.
    */
  lemma InfiniteRunsAreUnfair(c: Config, states: nat -> State, steps: nat -> Step) returns (n: nat, starved: Step)
    requires Valid(c) && InfiniteRun(c, states, steps)
    ensures !starved.OwnerStep?
    ensures forall i: nat | i >= n :: Spins(states(i), steps(i)) && Enabled(c, states(i), starved)
  {
    hide Inv, Initial, Next, Enabled, Spins;
    n := EventuallySpins(c, states, steps, 0);
    AlwaysInv(c, states, steps, n);
    assert StepsAt(c, states, steps, n);
    starved := OthersCanMove(c, states(n), steps(n));
    forall i: nat | i >= n
      ensures Enabled(c, states(i), starved)
    {
      StaysEnabled(c, states, steps, n, starved, i);
    }
  }

  lemma {:induction false} StaysEnabled(
      c: Config, states: nat -> State, steps: nat -> Step, n: nat, step: Step, i: nat)
    requires Valid(c) && InfiniteRun(c, states, steps) && i >= n
    requires forall j: nat | j >= n :: Spins(states(j), steps(j))
    requires !step.OwnerStep? && Enabled(c, states(n), step)
    ensures Enabled(c, states(i), step)
    decreases i
  {
    hide Inv, Initial, Next, Enabled, Spins;
    if i > n {
      StaysEnabled(c, states, steps, n, step, i - 1);
      AlwaysInv(c, states, steps, i - 1);
      assert StepsAt(c, states, steps, i - 1);
      SpinsDisableNobody(c, states(i - 1), steps(i - 1), step);
    }
  }
}
