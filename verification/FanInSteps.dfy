/** Every reachable state of the fan-in burst has the invariant, and none but the final one is stuck. */
module FanInSteps {
  import opened FreeSets
  import opened Chunks
  import opened HeapSlots
  import opened FanIn
  import opened FanInInvariant
  import opened FanInMemory

  ghost predicate Inv(c: Config, s: State)
    requires Valid(c)
  {
    SetUp(c, s) && Rendezvous(c, s) && Joins(c, s) && Blocks(s) && Logged(s) && Exclusive(s) && Leased(c, s)
    && Accounted(c, s)
  }

  lemma InitialInv(c: Config, s: State)
    requires Valid(c) && Initial(c, s)
    ensures Inv(c, s)
  {
    InitialSetUp(c, s);
  }

  lemma CoordinatorKeepsInv(c: Config, s: State, choice: nat)
    requires Valid(c) && CoordinatorEnabled(c, s, choice) && Inv(c, s)
    ensures Inv(c, CoordinatorNext(c, s, choice))
  {
    assert s.coordinator == Begin ==> s.producers == [] && s.owner == Absent && s.lease == None;
    assert s.coordinator == Reclaiming && Threaded(c) ==> s.lease == None;
    hide CoordinatorNext, CoordinatorEnabled, SetUp, Rendezvous, Joins, Blocks, Logged, Exclusive, Leased, Accounted;
    CoordinatorKeepsSetUp(c, s, choice);
    CoordinatorKeepsRendezvous(c, s, choice);
    CoordinatorKeepsJoins(c, s, choice);
    CoordinatorKeepsBlocks(c, s, choice);
    CoordinatorKeepsLogged(c, s, choice);
    CoordinatorKeepsExclusive(c, s, choice);
    CoordinatorKeepsLeased(c, s, choice);
    CoordinatorKeepsAccounted(c, s, choice);
  }

  lemma OwnerKeepsInv(c: Config, s: State, given: Option<nat>)
    requires Valid(c) && OwnerEnabled(c, s, given) && Inv(c, s)
    ensures Inv(c, OwnerNext(c, s, given))
  {
    assert s.owner == OwnerClaiming ==> s.lease == None;
    hide OwnerNext, OwnerEnabled, SetUp, Rendezvous, Joins, Blocks, Logged, Exclusive, Leased, Accounted;
    OwnerKeepsSetUp(c, s, given);
    OwnerKeepsRendezvous(c, s, given);
    OwnerKeepsJoins(c, s, given);
    OwnerKeepsBlocks(c, s, given);
    OwnerKeepsLogged(c, s, given);
    OwnerKeepsExclusive(c, s, given);
    OwnerKeepsLeased(c, s, given);
    OwnerKeepsAccounted(c, s, given);
  }

  lemma ProducerKeepsInv(c: Config, s: State, k: nat, choice: nat)
    requires Valid(c) && ProducerEnabled(s, k, choice) && Inv(c, s)
    ensures Inv(c, ProducerNext(s, k, choice))
  {
    assert ProducerAligned(s, s.producers[k]);
    hide ProducerNext, SetUp, Rendezvous, Joins, Blocks, Logged, Exclusive, Leased, Accounted;
    ProducerKeepsSetUp(c, s, k, choice);
    ProducerKeepsRendezvous(c, s, k, choice);
    ProducerKeepsJoins(c, s, k, choice);
    ProducerKeepsBlocks(c, s, k, choice);
    ProducerKeepsLogged(s, k, choice);
    ProducerKeepsExclusive(s, k, choice);
    ProducerKeepsLeased(c, s, k, choice);
    ProducerKeepsAccounted(c, s, k, choice);
  }

  /** Every step of every thread keeps the whole invariant. */
  lemma NextKeepsInv(c: Config, s: State, step: Step)
    requires Valid(c) && Enabled(c, s, step) && Inv(c, s)
    ensures Inv(c, Next(c, s, step))
  {
    hide CoordinatorNext, OwnerNext, ProducerNext, CoordinatorEnabled, OwnerEnabled, ProducerEnabled, Inv;
    match step
    case CoordinatorStep(choice) => CoordinatorKeepsInv(c, s, choice);
    case OwnerStep(given) => OwnerKeepsInv(c, s, given);
    case ProducerStep(k, choice) => ProducerKeepsInv(c, s, k, choice);
  }

  lemma {:induction false} RunKeepsInv(c: Config, s: State, steps: seq<Step>)
    requires Valid(c) && Legal(c, s, steps) && Inv(c, s)
    ensures Inv(c, After(c, s, steps))
    decreases |steps|
  {
    hide Next, Enabled, Inv;
    if steps != [] {
      NextKeepsInv(c, s, steps[0]);
      RunKeepsInv(c, Next(c, s, steps[0]), steps[1..]);
    }
  }

  lemma ReachableInv(c: Config, s: State)
    requires Valid(c) && Reachable(c, s)
    ensures Inv(c, s)
  {
    hide Next, Enabled, Inv, Initial, Legal, After;
    var s0, steps :| Initial(c, s0) && Legal(c, s0, steps) && After(c, s0, steps) == s;
    InitialInv(c, s0);
    RunKeepsInv(c, s0, steps);
  }

  // ---- Never stuck ----

  lemma ReceivingMoves(c: Config, s: State, slot: nat, spare: nat) returns (step: Step)
    requires Valid(c) && Inv(c, s) && s.coordinator == Receiving && spare !in s.blocks
    requires Available(s.registry) > 0 ==> MayClaim(s.registry, slot)
    ensures (Enabled(c, s, step) && !Spins(s, step)) || Refused(c, s)
  {
    AvailableIsNat(s.registry);
    hide MayClaim, Claim, Drop, Slices, Producers, Counts, Aligned, Sliced, Blocks, Exclusive, Logged, Joins, Available;
    step := if s.channel.Some? then CoordinatorStep(0)
            else OwnerStep(Some(if s.owner == OwnerClaiming then slot else spare));
  }

  lemma AvailableIsNat(r: Registry)
    requires WellFormed(r)
    ensures Available(r) >= 0
  {
  }

  lemma SomeoneIsBeforeStart(c: Config, s: State, slot: nat) returns (step: Step)
    requires Valid(c) && Inv(c, s) && s.coordinator.AtStart? && s.start.generation == 0
    requires Available(s.registry) > 0 ==> MayClaim(s.registry, slot)
    ensures (Enabled(c, s, step) && !Spins(s, step)) || Refused(c, s)
  {
    AvailableIsNat(s.registry);
    assert Threaded(c) ==> OwnerStage(s.owner) >= 4;
    hide MayClaim, Available, SetUp, Rendezvous, Blocks, Exclusive, Logged, Joins, Leased, Accounted;
    if Threaded(c) && OwnerStage(s.owner) < 5 {
      step := OwnerStep(None);
    } else {
      var k := MissingAtStart(c, s);
      step := ProducerStep(k, slot);
      assert Available(s.registry) == 0 && !Claimed(s.producers[k]) ==> !AllClaimed(s);
    }
  }

  lemma MissingAtStart(c: Config, s: State) returns (k: nat)
    requires Valid(c) && SetUp(c, s) && Rendezvous(c, s) && s.coordinator.AtStart? && s.start.generation == 0
    requires Threaded(c) ==> OwnerStage(s.owner) >= 5
    ensures k < |s.producers| && ProducerStage(s.producers[k].pc) < 2
  {
    hide Slices, Producers, Aligned, Sliced, Sum;
    FullSum(s.producers, PastStart);
    assert Sum(s.producers, PastStart) < |s.producers|;
    k :| k < |s.producers| && PastStart(s.producers[k]) != 1;
  }

  lemma SomeoneIsBeforeDone(c: Config, s: State) returns (step: Step)
    requires Valid(c) && Inv(c, s) && s.coordinator.AtDone? && s.done.generation == 0
    ensures Enabled(c, s, step) && !Spins(s, step)
  {
    hide SetUp, Rendezvous, Blocks, Exclusive, Logged, Joins, Leased, Accounted;
    var k := MissingAtDone(c, s);
    step := ProducerStep(k, 0);
  }

  lemma MissingAtDone(c: Config, s: State) returns (k: nat)
    requires Valid(c) && SetUp(c, s) && Rendezvous(c, s) && s.coordinator.AtDone? && s.done.generation == 0
    ensures k < |s.producers| && ProducerEnabled(s, k, 0)
  {
    hide Slices, Producers, Sliced, Sum, MayClaim;
    OpenMeansAllArrived(c, s);
    FullSum(s.producers, PastDone);
    assert Sum(s.producers, PastDone) < |s.producers|;
    k :| k < |s.producers| && PastDone(s.producers[k]) != 1;
    assert ProducerAligned(s, s.producers[k]);
  }

  lemma OwnerMoves(c: Config, s: State)
    requires Valid(c) && Inv(c, s) && s.coordinator == JoiningOwner && Threaded(c) && s.owner != OwnerFinished
    ensures Enabled(c, s, OwnerStep(None)) && !Spins(s, OwnerStep(None))
  {
    OpenMeansAllArrived(c, s);
  }

  lemma AllAtDone(c: Config, s: State, k: nat)
    requires Valid(c) && SetUp(c, s) && Counts(c, s) && s.done.generation == 1 && k < |s.producers|
    ensures PastDone(s.producers[k]) == 1 && Stage(s.coordinator) >= 8 && |s.producers| == Producers(c)
  {
    Bounds(c, s);
    FullSum(s.producers, PastDone);
  }

  lemma ProducerMoves(c: Config, s: State, k: nat)
    requires Valid(c) && Inv(c, s) && s.done.generation == 1
    requires k < |s.producers| && s.producers[k].pc != Finished
    ensures ProducerEnabled(s, k, 0)
  {
    AllAtDone(c, s, k);
    assert ProducerAligned(s, s.producers[k]);
  }

  lemma ClaimIfAny(r: Registry) returns (slot: nat)
    requires WellFormed(r)
    ensures Available(r) > 0 ==> MayClaim(r, slot)
  {
    ClaimableIff(r);
    slot := 0;
    if Available(r) > 0 {
      slot :| MayClaim(r, slot);
    }
  }

  /**
    * From every reachable state but the final one, some thread can take a step that is not a spin, unless
    * a thread is refused a slot or a block.
    */
  lemma StuckOnlyOnRefusal(c: Config, s: State) returns (step: Step)
    requires Valid(c) && Inv(c, s) && s.coordinator != Ended
    ensures (Enabled(c, s, step) && !Spins(s, step)) || Refused(c, s)
  {
    var slot := ClaimIfAny(s.registry);
    var spare := Above(s.blocks);
    assert spare !in s.blocks;
    if s.coordinator == Receiving {
      step := ReceivingMoves(c, s, slot, spare);
    } else if s.coordinator.AtStart? && s.start.generation == 0 {
      step := SomeoneIsBeforeStart(c, s, slot);
    } else if s.coordinator.AtDone? && s.done.generation == 0 {
      step := SomeoneIsBeforeDone(c, s);
    } else if s.coordinator == JoiningOwner && Threaded(c) && s.owner != OwnerFinished {
      OwnerMoves(c, s);
      step := OwnerStep(None);
    } else if s.coordinator.JoiningProducers? && s.coordinator.joined < |s.producers|
              && s.producers[s.coordinator.joined].pc != Finished {
      ProducerMoves(c, s, s.coordinator.joined);
      step := ProducerStep(s.coordinator.joined, 0);
    } else {
      step := CoordinatorStep(if s.coordinator == Allocating then spare else slot);
      CoordinatorMoves(c, s, step.choice);
    }
  }

  lemma CoordinatorMoves(c: Config, s: State, choice: nat)
    requires Valid(c) && Inv(c, s) && s.coordinator != Ended && s.coordinator != Receiving
    requires s.coordinator.AtStart? ==> s.start.generation != 0
    requires s.coordinator.AtDone? ==> s.done.generation != 0
    requires s.coordinator == JoiningOwner && Threaded(c) ==> s.owner == OwnerFinished
    requires s.coordinator.JoiningProducers? && s.coordinator.joined < |s.producers|
      ==> s.producers[s.coordinator.joined].pc == Finished
    requires if s.coordinator == Allocating then choice !in s.blocks
             else Available(s.registry) > 0 ==> MayClaim(s.registry, choice)
    ensures CoordinatorEnabled(c, s, choice) || Refused(c, s)
  {
    AvailableIsNat(s.registry);
    assert s.coordinator == Reclaiming && Threaded(c) ==> Available(s.registry) > 0;
    hide MayClaim, Claim, Drop, Slices, Producers, Sliced, Blocks, Exclusive, Logged, Joins, Counts, Aligned, Available;
  }

  /** So in a cell that is granted what it needs, nothing but the end stops everybody. */
  lemma NeverStuck(c: Config, s: State) returns (step: Step)
    requires Valid(c) && Inv(c, s) && s.coordinator != Ended && Granted(c)
    ensures Enabled(c, s, step) && !Spins(s, step)
  {
    step := StuckOnlyOnRefusal(c, s);
    GrantedNotRefused(c, s);
  }
}
