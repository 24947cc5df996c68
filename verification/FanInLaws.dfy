/**
 * The safety laws of the fan-in burst, in every reachable state: each pre-allocated block is freed exactly
 * once between the two barriers, and the owner's slot is held as each owner state says.
 */
module FanInLaws {
  import opened FreeSets
  import opened Chunks
  import opened FanIn
  import opened FanInInvariant
  import opened FanInMemory
  import opened FanInSteps

  /** The start barrier opens only when the coordinator, the owner thread and every producer are there. */
  lemma OpensForAll(c: Config, s: State)
    requires Valid(c) && Reachable(c, s)
    ensures s.start.generation == 1 <==>
      (Stage(s.coordinator) >= 6 && (Threaded(c) ==> OwnerStage(s.owner) >= 5)
       && forall k | 0 <= k < |s.producers| :: ProducerStage(s.producers[k].pc) >= 2)
    ensures s.start.generation == 1 ==> |s.producers| == Producers(c)
  {
    ReachableInv(c, s);
    if s.start.generation == 1 {
      OpenMeansAllArrived(c, s);
    } else {
      FullSum(s.producers, PastStart);
    }
  }

  /** No producer frees before the start barrier opens. */
  lemma NoFreeBeforeStart(c: Config, s: State)
    requires Valid(c) && Reachable(c, s) && s.start.generation == 0
    ensures s.frees == multiset{}
  {
    ReachableInv(c, s);
    forall k | 0 <= k < |s.producers|
      ensures Freed(s.producers[k]) == 0
    {
      assert ProducerAligned(s, s.producers[k]);
    }
    NothingFreed(s.producers);
  }

  lemma {:induction false} NothingFreed(ps: seq<Producer>)
    requires forall k | 0 <= k < |ps| :: Freed(ps[k]) == 0
    ensures FreedBy(ps) == multiset{}
  {
    if ps != [] {
      NothingFreed(ps[..|ps| - 1]);
    }
  }

  /** Producers that are through have freed exactly their slices. */
  lemma {:induction false} FreedSlices(ps: seq<Producer>, ss: seq<seq<nat>>)
    requires |ps| <= |ss|
    requires forall k | 0 <= k < |ps| :: ps[k].slice == ss[k] && Freed(ps[k]) == |ps[k].slice|
    ensures FreedBy(ps) == multiset(Flatten(ss[..|ps|]))
  {
    if ps != [] {
      var n := |ps| - 1;
      FreedSlices(ps[..n], ss);
      FlattenMore(ss, n);
      assert ps[n].slice[..Freed(ps[n])] == ss[n];
    }
  }

  lemma {:induction false} LengthOfSlices(ps: seq<Producer>, ss: seq<seq<nat>>)
    requires |ps| <= |ss|
    requires forall k | 0 <= k < |ps| :: ps[k].slice == ss[k]
    ensures Sum(ps, Length) == |Flatten(ss[..|ps|])| <= |Flatten(ss)|
  {
    FlattenSplit(ss, |ps|);
    if ps != [] {
      var n := |ps| - 1;
      LengthOfSlices(ps[..n], ss);
      FlattenMore(ss, n);
    }
  }

  lemma {:induction false} CountInDistinct(s: seq<nat>, x: nat)
    requires Distinct(s)
    ensures multiset(s)[x] == if x in s then 1 else 0
  {
    if s != [] {
      var n := |s| - 1;
      assert s == s[..n] + [s[n]];
      CountInDistinct(s[..n], x);
      assert s[n] !in s[..n];
    }
  }

  /** When the coordinator is past the done barrier, every pre-allocated block has been freed exactly once. */
  lemma FreedExactlyOnce(c: Config, s: State, x: nat)
    requires Valid(c) && Reachable(c, s) && Stage(s.coordinator) >= 9
    ensures |s.addrs| == c.burst && Distinct(s.addrs)
    ensures s.frees[x] == if x in s.addrs then 1 else 0
  {
    ReachableInv(c, s);
    assert s.done.generation == 1 && Sliced(c, s) && Distinct(s.ptrs) && Logged(s);
    hide Inv, Reachable, Plan, SetUp, Counts, Rendezvous, Freed, FreedBy, Sliced, Flatten;
    AllPlanned(c, s);
    forall k | 0 <= k < |s.producers|
      ensures s.producers[k].slice == Plan(c, s)[k] && Freed(s.producers[k]) == |s.producers[k].slice|
    {
      AllFreed(c, s, k);
    }
    FreedSlices(s.producers, Plan(c, s));
    assert Plan(c, s)[..|s.producers|] == Plan(c, s);
    CountInDistinct(s.addrs, x);
  }

  lemma AllFreed(c: Config, s: State, k: nat)
    requires Valid(c) && SetUp(c, s) && Counts(c, s) && Sliced(c, s) && s.done.generation == 1 && k < |s.producers|
    ensures k < |Plan(c, s)| && s.producers[k].slice == Plan(c, s)[k]
    ensures Freed(s.producers[k]) == |s.producers[k].slice|
  {
    AllAtDone(c, s, k);
  }

  lemma AllPlanned(c: Config, s: State)
    requires Valid(c) && SetUp(c, s) && Stage(s.coordinator) > 4
    ensures |s.producers| == |Plan(c, s)| == Producers(c) && Flatten(Plan(c, s)) == s.ptrs == s.addrs && |s.ptrs| == c.burst
  {
    BarrierSizesMatch(s.ptrs, c.threads);
    SlicesCover(s.ptrs, Chunk(c));
  }

  /** Every free hits a live block: no block is freed twice, by whichever thread. */
  lemma FreesHitLiveBlocks(c: Config, s: State, step: Step)
    requires Valid(c) && Reachable(c, s) && Enabled(c, s, step)
    ensures step.ProducerStep? && s.producers[step.index].pc.Freeing?
            && s.producers[step.index].pc.next < |s.producers[step.index].slice|
      ==> var p := s.producers[step.index];
          p.slice[p.pc.next] in s.blocks && p.slice[p.pc.next] in s.addrs
          && Next(c, s, step).blocks == s.blocks - {p.slice[p.pc.next]}
    ensures step.OwnerStep? && (s.owner == Flushing || s.owner == Draining) && s.batch != []
      ==> s.batch[0] in s.blocks && Next(c, s, step).blocks == s.blocks - {s.batch[0]}
  {
    ReachableInv(c, s);
    assert SetUp(c, s) && AllPending(s) && Batch(s);
    hide Inv, Reachable, SetUp, Arrive, Chunk, Slices;
    if step.ProducerStep? {
      var p := s.producers[step.index];
      assert Pending(s, p);
      if p.pc.Freeing? && p.pc.next < |p.slice| {
        InPlan(c, s, step.index, p.pc.next);
      }
    }
  }

  lemma InPlan(c: Config, s: State, k: nat, j: nat)
    requires Valid(c) && SetUp(c, s) && k < |s.producers| && j < |s.producers[k].slice|
    ensures s.producers[k].slice[j] in s.addrs
  {
    SlicesCover(s.ptrs, Chunk(c));
    InFlatten(Plan(c, s), k, j);
  }

  /** The joins collect one latency for each block of the burst, from as many producers as the barriers count. */
  lemma AllCollected(c: Config, s: State)
    requires Valid(c) && Reachable(c, s) && Stage(s.coordinator) >= 12
    ensures s.collected == c.burst && |s.producers| == Producers(c)
    ensures forall k | 0 <= k < |s.producers| :: s.producers[k].pc == Finished
    ensures Threaded(c) ==> s.owner == OwnerFinished && s.batch == []
  {
    ReachableInv(c, s);
    AllJoined(c, s);
    hide Inv, Reachable, SetUp, Joins, Sum, Flatten, Producers, Plan;
    AllPlanned(c, s);
    LengthOfSlices(s.producers, Plan(c, s));
    assert Plan(c, s)[..|s.producers|] == Plan(c, s);
  }

  lemma AllJoined(c: Config, s: State)
    requires Valid(c) && Inv(c, s) && Stage(s.coordinator) >= 12
    ensures SetUp(c, s) && Sliced(c, s) && s.collected == Sum(s.producers, Length)
    ensures forall k | 0 <= k < |s.producers| :: s.producers[k].pc == Finished
    ensures Threaded(c) ==> s.owner == OwnerFinished && s.batch == []
  {
    hide Sum, Rendezvous, Exclusive, Leased, Accounted, Logged, AllPending, Producers, Plan;
    assert s.producers[..|s.producers|] == s.producers;
  }

  predicate InBurst(s: State) {
    s.start.generation == 1 && Stage(s.coordinator) <= 9
  }

  /** Active, slow and paused: the owner's lease holds its slot for the whole burst, and no producer shares it. */
  lemma LeaseSpansBurst(c: Config, s: State)
    requires Valid(c) && Reachable(c, s) && InBurst(s) && c.owner != Exited
    ensures s.lease == Some(s.ownerSlot) && s.ownerSlot in s.registry.live
    ensures forall k | 0 <= k < |s.producers| :: s.producers[k].slot != s.ownerSlot
  {
    ReachableInv(c, s);
    OpenMeansAllArrived(c, s);
  }

  /**
   * Exited: the owner's slot is free only until the first producer claims. The dropped lease leaves the
   * slot in the reuse hint, so that claim takes it over.
   */
  lemma ExitedSlotFreeIff(c: Config, s: State)
    requires Valid(c) && Reachable(c, s) && c.owner == Exited && Stage(s.coordinator) >= 4
    ensures s.lease == None
    ensures s.ownerSlot !in s.registry.live <==> NoneClaimed(s)
    ensures !NoneClaimed(s) ==> TakenOver(s)
  {
    ReachableInv(c, s);
    if TakenOver(s) {
      var k :| 0 <= k < |s.producers| && Claimed(s.producers[k]) && s.producers[k].slot == s.ownerSlot;
      assert s.ownerSlot in s.registry.live;
    }
  }

  /** So the burst of an exited owner never runs against a free slot: a producer holds it throughout. */
  lemma ExitedSlotIsTakenInBurst(c: Config, s: State)
    requires Valid(c) && Reachable(c, s) && c.owner == Exited && InBurst(s)
    ensures s.lease == None && s.ownerSlot in s.registry.live && TakenOver(s)
  {
    ReachableInv(c, s);
    OpenMeansAllArrived(c, s);
    ExitedSlotFreeIff(c, s);
    BarrierSizesMatch(s.ptrs, c.threads);
    assert Claimed(s.producers[0]);
  }

  /** The claim after the burst gets the owner's own slot back. */
  lemma ReclaimReturnsOwnerSlot(c: Config, s: State, choice: nat)
    requires Valid(c) && Reachable(c, s) && s.coordinator == Reclaiming && Threaded(c)
    requires CoordinatorEnabled(c, s, choice)
    ensures choice == s.ownerSlot && s.ownerSlot !in s.registry.live
  {
    ReachableInv(c, s);
  }
}
