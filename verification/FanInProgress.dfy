/** Every run of the fan-in burst does a bounded amount of work, and from everywhere the end can be reached. */
module FanInProgress {
  import opened FreeSets
  import opened Chunks
  import opened HeapSlots
  import opened FanIn
  import opened FanInInvariant
  import opened FanInMemory
  import opened FanInSteps
  import opened FanInLaws

  // ---- A measure of the work done ----

  function CoordinatorWork(c: Config, s: State): nat
    requires Valid(c)
  {
    match s.coordinator
    case Begin => 0
    case Receiving => 1
    case Allocating => 1 + |s.ptrs|
    case HandingOver => c.burst + 2
    case Spawning => c.burst + 3
    case ToStart => c.burst + 4
    case AtStart(_) => c.burst + 5
    case ToDone => c.burst + 6
    case AtDone(_) => c.burst + 7
    case Stopping => c.burst + 8
    case JoiningOwner => c.burst + 9
    case JoiningProducers(joined) => c.burst + 10 + joined
    case Reclaiming => c.burst + Producers(c) + 11
    case Ended => c.burst + Producers(c) + 12
  }

  /** What the owner still has to do after it is told to stop, at most. */
  const LAST_LAP: nat := BATCH_CAP + 7

  function OwnerWork(c: Config, s: State): int {
    var n := c.burst + LAST_LAP;
    match s.owner
    case Absent => 0
    case OwnerClaiming => 1
    case OwnerAllocating => 2 + |s.ptrs|
    case Sending => c.burst + 3
    case OwnerToStart => c.burst + 4
    case OwnerAtStart(_) => c.burst + 5
    case Checking => c.burst + 6 + (if s.ownerDone then LAST_LAP - |s.batch| - 3 else 0)
    case Requesting => c.burst + 6 + (if s.ownerDone then LAST_LAP - |s.batch| - 7 else 0)
    case Capping => c.burst + 6 + (if s.ownerDone then LAST_LAP - |s.batch| - 5 else 0)
    case Flushing => c.burst + 6 + (if s.ownerDone then LAST_LAP - |s.batch| - 4 else 0)
    case Draining => c.burst + 6 + LAST_LAP - |s.batch| - 2
    case Dropping => c.burst + 6 + LAST_LAP - 1
    case OwnerFinished => c.burst + 6 + LAST_LAP
  }

  function Work(p: Producer): nat {
    match p.pc
    case Claiming => 1
    case ProducerToStart => 2
    case ProducerAtStart(_) => 3
    case Freeing(next) => 4 + next
    case ProducerToDone => 5 + |p.slice|
    case ProducerAtDone(_) => 6 + |p.slice|
    case Finished => 7 + |p.slice|
  }

  function Progress(c: Config, s: State): int
    requires Valid(c)
  {
    CoordinatorWork(c, s) + OwnerWork(c, s) + Sum(s.producers, Work)
  }

  /** All the work there is in one burst. */
  function TotalWork(c: Config): nat
    requires Valid(c)
  {
    3 * c.burst + 8 * Producers(c) + LAST_LAP + 18
  }

  lemma {:induction false} WorkBound(ps: seq<Producer>)
    requires forall k | 0 <= k < |ps| :: ps[k].pc.Freeing? ==> ps[k].pc.next <= |ps[k].slice|
    ensures Sum(ps, Work) <= Sum(ps, Length) + 7 * |ps|
  {
    if ps != [] {
      WorkBound(ps[..|ps| - 1]);
    }
  }

  lemma ProgressBound(c: Config, s: State)
    requires Valid(c) && Inv(c, s)
    ensures 0 <= Progress(c, s) <= TotalWork(c)
  {
    forall k | 0 <= k < |s.producers|
      ensures s.producers[k].pc.Freeing? ==> s.producers[k].pc.next <= |s.producers[k].slice|
    {
      assert ProducerAligned(s, s.producers[k]);
    }
    WorkBound(s.producers);
    Bounds(c, s);
    LengthBound(c, s);
    CoordinatorWorkBound(c, s);
    OwnerWorkBound(c, s);
    hide Sum, Producers, Inv, CoordinatorWork, OwnerWork, Work, Length;
  }

  lemma CoordinatorWorkBound(c: Config, s: State)
    requires Valid(c) && SetUp(c, s) && Joins(c, s)
    ensures CoordinatorWork(c, s) <= c.burst + Producers(c) + 12
  {
    Bounds(c, s);
    hide Sum, Producers, Sliced;
  }

  lemma OwnerWorkBound(c: Config, s: State)
    requires |s.ptrs| <= c.burst && Batch(s)
    ensures 0 <= OwnerWork(c, s) <= c.burst + LAST_LAP + 6
  {
  }

  lemma LengthBound(c: Config, s: State)
    requires Valid(c) && SetUp(c, s)
    ensures Sum(s.producers, Length) <= c.burst
  {
    if Stage(s.coordinator) >= 4 {
      SlicesCover(s.ptrs, Chunk(c));
      LengthOfSlices(s.producers, Plan(c, s));
    }
  }

  /** A spin does no work; every other step does some. */
  lemma EveryStepProgresses(c: Config, s: State, step: Step)
    requires Valid(c) && Inv(c, s) && Enabled(c, s, step)
    ensures if Spins(s, step) then Progress(c, Next(c, s, step)) == Progress(c, s)
            else Progress(c, Next(c, s, step)) > Progress(c, s)
  {
    match step
    case CoordinatorStep(choice) => CoordinatorProgresses(c, s, choice);
    case OwnerStep(given) => OwnerProgresses(c, s, given);
    case ProducerStep(k, choice) => ProducerProgresses(c, s, k, choice);
  }

  lemma CoordinatorProgresses(c: Config, s: State, choice: nat)
    requires Valid(c) && Inv(c, s) && CoordinatorEnabled(c, s, choice)
    ensures Progress(c, CoordinatorNext(c, s, choice)) > Progress(c, s)
  {
    var t := CoordinatorNext(c, s, choice);
    CoordinatorEffect(c, s, choice);
    CoordinatorsPart(c, s, choice);
    OwnersPart(c, s, choice);
    hide CoordinatorNext, CoordinatorEnabled, Inv, Sum, CoordinatorWork, OwnerWork;
    if Spawns(s, t) {
      var p := t.producers[|s.producers|];
      assert t.producers == s.producers + [p];
      SumOfMore(s.producers, p, Work);
    }
  }

  lemma CoordinatorsPart(c: Config, s: State, choice: nat)
    requires Valid(c) && SetUp(c, s) && Joins(c, s) && CoordinatorEnabled(c, s, choice)
    ensures var t := CoordinatorNext(c, s, choice);
      if Spawns(s, t) then CoordinatorWork(c, t) == CoordinatorWork(c, s)
      else CoordinatorWork(c, t) > CoordinatorWork(c, s)
  {
    hide Slices, Chunk, Claim, Drop, MayClaim, Arrive, Sum, Producers, Sliced;
  }

  lemma OwnersPart(c: Config, s: State, choice: nat)
    requires Valid(c) && SetUp(c, s) && Joins(c, s) && Batch(s) && CoordinatorEnabled(c, s, choice)
    ensures OwnerWork(c, CoordinatorNext(c, s, choice)) >= OwnerWork(c, s)
  {
    hide Slices, Chunk, Claim, Drop, MayClaim, Arrive, Sum, Producers, Sliced;
  }

  lemma OwnerProgresses(c: Config, s: State, given: Option<nat>)
    requires Valid(c) && Inv(c, s) && OwnerEnabled(c, s, given)
    ensures var t := OwnerNext(c, s, given);
      if Spins(s, OwnerStep(given)) then Progress(c, t) == Progress(c, s) else Progress(c, t) > Progress(c, s)
  {
    OwnerAlone(c, s, given);
    OwnerEffect(c, s, given);
    hide OwnerNext, OwnerEnabled, Inv, Sum, OwnerWork, Producers;
  }

  lemma OwnerAlone(c: Config, s: State, given: Option<nat>)
    requires Valid(c) && OwnerEnabled(c, s, given)
    requires Joins(c, s) && Batch(s) && (s.owner == OwnerAllocating ==> |s.ptrs| <= c.burst)
    requires s.coordinator == Allocating ==> s.owner == Absent
    ensures var t := OwnerNext(c, s, given);
      && CoordinatorWork(c, t) == CoordinatorWork(c, s)
      && if Spins(s, OwnerStep(given)) then OwnerWork(c, t) == OwnerWork(c, s) else OwnerWork(c, t) > OwnerWork(c, s)
  {
    hide Claim, Drop, MayClaim, Arrive, Sum, Producers, Joined;
  }

  lemma ProducerProgresses(c: Config, s: State, k: nat, choice: nat)
    requires Valid(c) && Inv(c, s) && ProducerEnabled(s, k, choice)
    ensures Progress(c, ProducerNext(s, k, choice)) > Progress(c, s)
  {
    var t := ProducerNext(s, k, choice);
    assert ProducerAligned(s, s.producers[k]);
    ProducerEffect(s, k, choice);
    ProducerAlone(c, s, k, choice);
    SumOfUpdate(s.producers, k, t.producers[k], Work);
    assert Sum(t.producers, Work) + Work(s.producers[k]) == Sum(s.producers, Work) + Work(t.producers[k]);
    hide ProducerNext, ProducerEnabled, Inv, Sum, Producers, CoordinatorWork, OwnerWork, Work;
  }

  lemma ProducerAlone(c: Config, s: State, k: nat, choice: nat)
    requires Valid(c) && ProducerEnabled(s, k, choice) && ProducerAligned(s, s.producers[k])
    ensures var t := ProducerNext(s, k, choice);
      && CoordinatorWork(c, t) == CoordinatorWork(c, s) && OwnerWork(c, t) == OwnerWork(c, s)
      && k < |t.producers| && Work(t.producers[k]) > Work(s.producers[k])
  {
    hide Claim, MayClaim, Arrive, Producers, CoordinatorWork, OwnerWork;
    SameWork(c, s, ProducerNext(s, k, choice));
  }

  /** The work of the coordinator and of the owner depends on these alone. */
  lemma SameWork(c: Config, s: State, t: State)
    requires Valid(c) && t.coordinator == s.coordinator && t.owner == s.owner
    requires t.ptrs == s.ptrs && t.batch == s.batch && t.ownerDone == s.ownerDone
    ensures CoordinatorWork(c, t) == CoordinatorWork(c, s) && OwnerWork(c, t) == OwnerWork(c, s)
  {
  }

  // ---- Runs ----

  /** The steps of a run that are not spins. */
  function Productive(c: Config, s: State, steps: seq<Step>): nat
    requires Valid(c) && Legal(c, s, steps)
    decreases |steps|
  {
    if steps == [] then 0
    else Productive(c, Next(c, s, steps[0]), steps[1..]) + (if Spins(s, steps[0]) then 0 else 1)
  }

  /** However the threads interleave, only boundedly many steps are not the owner's spinning. */
  lemma {:induction false} BoundedWork(c: Config, s: State, steps: seq<Step>)
    requires Valid(c) && Inv(c, s) && Legal(c, s, steps)
    ensures Productive(c, s, steps) + Progress(c, s) <= Progress(c, After(c, s, steps)) <= TotalWork(c)
    decreases |steps|
  {
    hide Next, Enabled, Inv, Progress, Spins;
    if steps == [] {
      ProgressBound(c, s);
    } else {
      EveryStepProgresses(c, s, steps[0]);
      NextKeepsInv(c, s, steps[0]);
      BoundedWork(c, Next(c, s, steps[0]), steps[1..]);
    }
  }

  lemma BoundedRuns(c: Config, s: State, steps: seq<Step>)
    requires Valid(c) && Initial(c, s) && Legal(c, s, steps)
    ensures Productive(c, s, steps) <= 3 * c.burst + 8 * Producers(c) + 4121
  {
    InitialInv(c, s);
    BoundedWork(c, s, steps);
  }

  /** Every reachable state can be run, without a spin, to the end or to a refusal. */
  lemma {:induction false} CanFinish(c: Config, s: State) returns (steps: seq<Step>)
    requires Valid(c) && Inv(c, s)
    ensures Legal(c, s, steps) && Productive(c, s, steps) == |steps|
    ensures After(c, s, steps).coordinator == Ended || Refused(c, After(c, s, steps))
    ensures Granted(c) ==> After(c, s, steps).coordinator == Ended
    decreases TotalWork(c) - Progress(c, s)
  {
    hide Next, Enabled, Inv, Progress, Spins, Granted, Refused;
    if s.coordinator == Ended || Refused(c, s) {
      steps := [];
      NotRefused(c, s);
    } else {
      var step := StuckOnlyOnRefusal(c, s);
      EveryStepProgresses(c, s, step);
      NextKeepsInv(c, s, step);
      ProgressBound(c, Next(c, s, step));
      var rest := CanFinish(c, Next(c, s, step));
      steps := [step] + rest;
      assert steps[1..] == rest;
    }
  }

  lemma NotRefused(c: Config, s: State)
    requires Valid(c) && Inv(c, s)
    ensures Granted(c) ==> !Refused(c, s)
  {
    if Granted(c) {
      GrantedNotRefused(c, s);
    }
  }

  /** The start barrier opens only in a cell that is granted what it needs. */
  lemma OpensOnlyIfGranted(c: Config, s: State)
    requires Valid(c) && Inv(c, s) && s.start.generation == 1
    ensures Granted(c)
  {
    OpenMeansAllArrived(c, s);
    forall k | 0 <= k < |s.producers|
      ensures HasSlot(s.producers[k]) == 1
    {
      assert ProducerStage(s.producers[k].pc) >= 2;
    }
    FullSum(s.producers, HasSlot);
    AvailableIsNat(s.registry);
    hide Producers, Sum, Available, Blocks, Logged, Counts, Aligned, Sliced, Exclusive;
  }

  /**
    * A cell can end, from any state it can reach, exactly when it is granted a slot for each producer and for
    * an owner that stays, and a block for each free. With less, its start barrier never opens.
    */
  lemma EndsIffGranted(c: Config, s: State)
    requires Valid(c) && Reachable(c, s)
    ensures (exists steps :: Legal(c, s, steps) && After(c, s, steps).coordinator == Ended) <==> Granted(c)
    ensures !Granted(c) ==> s.start.generation == 0 && s.frees == multiset{}
  {
    ReachableInv(c, s);
    hide Next, Enabled, Inv, Legal, After, Granted, Reachable;
    if Granted(c) {
      var steps := CanFinish(c, s);
    } else {
      ClosedUnlessGranted(c, s);
      NoFreeBeforeStart(c, s);
    }
    if steps :| Legal(c, s, steps) && After(c, s, steps).coordinator == Ended {
      RunKeepsInv(c, s, steps);
      EndIsOpen(c, After(c, s, steps));
      OpensOnlyIfGranted(c, After(c, s, steps));
    }
  }

  lemma ClosedUnlessGranted(c: Config, s: State)
    requires Valid(c) && Inv(c, s) && !Granted(c)
    ensures s.start.generation == 0
  {
    BarriersOpenOnce(c, s);
    if s.start.generation == 1 {
      OpensOnlyIfGranted(c, s);
    }
  }

  lemma EndIsOpen(c: Config, s: State)
    requires Valid(c) && Inv(c, s) && s.coordinator == Ended
    ensures s.start.generation == 1
  {
  }

  // ---- Witnesses ----

  /** A start with just the room that is asked for: all other slots are minted and live. */
  function Start(c: Config): State
    requires Valid(c) && c.room <= MAX_HEAPS
  {
    var minted := MAX_HEAPS - c.room;
    State(Begin, Absent, [], None, Barrier(StartSize(c), 0, 0), Barrier(Producers(c) + 1, 0, 0), false,
          Registry(Elements(seq(minted, i => i)), None, {}, minted), None, [], 0, [], [], {}, multiset{}, 0)
  }

  lemma StartIsInitial(c: Config)
    requires Valid(c) && c.room <= MAX_HEAPS
    ensures Initial(c, Start(c)) && Reachable(c, Start(c)) && Inv(c, Start(c))
  {
    var minted := MAX_HEAPS - c.room;
    var slots := seq(minted, i => i);
    forall x: nat | x < minted
      ensures x in Elements(slots)
    {
      assert slots[x] == x;
    }
    InitialInv(c, Start(c));
    assert Legal(c, Start(c), []) && After(c, Start(c), []) == Start(c);
  }

  /** Every configuration that is granted what it needs has a run to the end. */
  lemma EndIsReachable(c: Config) returns (s: State)
    requires Valid(c) && Granted(c) && c.room <= MAX_HEAPS
    ensures Reachable(c, s) && s.coordinator == Ended
  {
    StartIsInitial(c);
    hide Inv, Initial, Next, Enabled, Start;
    var steps := CanFinish(c, Start(c));
    s := After(c, Start(c), steps);
  }

  /** It has a run into the burst, so the laws of the burst are about something. */
  lemma BurstIsReached(c: Config) returns (s: State)
    requires Valid(c) && Granted(c) && c.room <= MAX_HEAPS
    ensures Reachable(c, s) && InBurst(s)
  {
    StartIsInitial(c);
    assert Start(c).start.generation == 0;
    hide Inv, Initial, Next, Enabled, Start;
    var steps := CanFinish(c, Start(c));
    RunKeepsInv(c, Start(c), steps);
    EndIsOpen(c, After(c, Start(c), steps));
    var prefix := FirstOpen(c, Start(c), steps);
    s := After(c, Start(c), prefix);
  }

  /** The first state of a run with an open start barrier is in the burst. */
  lemma {:induction false} FirstOpen(c: Config, s: State, steps: seq<Step>) returns (prefix: seq<Step>)
    requires Valid(c) && Inv(c, s) && s.start.generation == 0
    requires Legal(c, s, steps) && After(c, s, steps).start.generation == 1
    ensures Legal(c, s, prefix) && InBurst(After(c, s, prefix))
    decreases |steps|
  {
    hide Next, Enabled, Inv, InBurst;
    assert steps != [];
    var t := Next(c, s, steps[0]);
    NextKeepsInv(c, s, steps[0]);
    OpeningStep(c, s, steps[0]);
    if t.start.generation == 0 {
      var rest := FirstOpen(c, t, steps[1..]);
      prefix := [steps[0]] + rest;
      assert prefix[1..] == rest;
    } else {
      prefix := [steps[0]];
      assert prefix[1..] == [];
    }
  }

  lemma OpeningStep(c: Config, s: State, step: Step)
    requires Valid(c) && Inv(c, s) && s.start.generation == 0 && Enabled(c, s, step)
    ensures var t := Next(c, s, step); t.start.generation == 0 || InBurst(t)
  {
    NextKeepsInv(c, s, step);
    var t := Next(c, s, step);
    BarriersOpenOnce(c, t);
    match step
    case CoordinatorStep(choice) => CoordinatorEffect(c, s, choice);
    case OwnerStep(given) => OwnerEffect(c, s, given);
    case ProducerStep(k, choice) => ProducerEffect(s, k, choice);
  }

  /** A cell that is not granted what it needs has a start from which no run ends. */
  lemma TooLittleNeverEnds(c: Config, steps: seq<Step>)
    requires Valid(c) && !Granted(c) && c.room <= MAX_HEAPS && Legal(c, Start(c), steps)
    ensures Initial(c, Start(c)) && After(c, Start(c), steps).coordinator != Ended
    ensures After(c, Start(c), steps).start.generation == 0
  {
    StartIsInitial(c);
    hide Inv, Initial, Next, Enabled, Start, Granted;
    RunKeepsInv(c, Start(c), steps);
    var s := After(c, Start(c), steps);
    ClosedUnlessGranted(c, s);
    if s.coordinator == Ended {
      EndIsOpen(c, s);
    }
  }
}
