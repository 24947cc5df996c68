/** What every step of the fan-in burst keeps about blocks and slots. */
module FanInMemory {
  import opened FreeSets
  import opened Chunks
  import opened HeapSlots
  import opened FanIn
  import opened FanInInvariant

  /** How many blocks of its slice a producer has freed. */
  function Freed(p: Producer): nat {
    if ProducerStage(p.pc) < 3 then 0
    else if p.pc.Freeing? && p.pc.next <= |p.slice| then p.pc.next
    else |p.slice|
  }

  function FreedBy(ps: seq<Producer>): multiset<nat> {
    if ps == [] then multiset{} else FreedBy(ps[..|ps| - 1]) + Given(ps[|ps| - 1])
  }

  function Given(p: Producer): multiset<nat> {
    multiset(p.slice[..Freed(p)])
  }

  lemma FreedByMore(ps: seq<Producer>, p: Producer)
    ensures FreedBy(ps + [p]) == FreedBy(ps) + Given(p)
  {
    assert (ps + [p])[..|ps|] == ps;
  }

  /** When one producer frees `more`, so much more has been freed in all. */
  lemma {:induction false} FreedByUpdate(ps: seq<Producer>, k: nat, p: Producer, more: multiset<nat>)
    requires k < |ps| && Given(p) == Given(ps[k]) + more
    ensures FreedBy(ps[k := p]) == FreedBy(ps) + more
  {
    hide Given;
    var n := |ps| - 1;
    if k < n {
      assert ps[k := p][..n] == ps[..n][k := p];
      FreedByUpdate(ps[..n], k, p, more);
      assert FreedBy(ps[k := p]) == FreedBy(ps[..n]) + more + Given(ps[n]);
    } else {
      assert ps[k := p][..n] == ps[..n];
      assert FreedBy(ps[k := p]) == FreedBy(ps[..n]) + (Given(ps[k]) + more);
    }
  }

  /** The log of frees holds what the producers are past, once for each time. */
  ghost predicate Logged(s: State) {
    s.frees == FreedBy(s.producers)
  }

  lemma CoordinatorKeepsLogged(c: Config, s: State, choice: nat)
    requires Valid(c) && CoordinatorEnabled(c, s, choice) && Logged(s)
    requires s.coordinator == Begin ==> s.owner == Absent
    ensures Logged(CoordinatorNext(c, s, choice))
  {
    hide CoordinatorNext, CoordinatorEnabled, FreedBy, Given, Arrive, Stage, OwnerStage;
    CoordinatorFreesNothing(c, s, choice);
    CoordinatorEffect(c, s, choice);
    var t := CoordinatorNext(c, s, choice);
    if Spawns(s, t) {
      var p := t.producers[|s.producers|];
      assert t.producers == s.producers + [p];
      FreedByMore(s.producers, p);
      NothingGiven(p);
    }
  }

  lemma CoordinatorFreesNothing(c: Config, s: State, choice: nat)
    requires Valid(c) && CoordinatorEnabled(c, s, choice)
    ensures CoordinatorNext(c, s, choice).frees == s.frees
  {
    hide Slices, Chunk, Claim, Drop, MayClaim, Arrive;
  }

  lemma NothingGiven(p: Producer)
    requires p.pc == Claiming
    ensures Given(p) == multiset{}
  {
  }

  lemma OwnerKeepsLogged(c: Config, s: State, given: Option<nat>)
    requires Valid(c) && OwnerEnabled(c, s, given) && Logged(s)
    ensures Logged(OwnerNext(c, s, given))
  {
    hide Claim, Drop, MayClaim, Arrive, FreedBy;
  }

  lemma ProducerKeepsLogged(s: State, k: nat, choice: nat)
    requires ProducerEnabled(s, k, choice) && Logged(s) && ProducerAligned(s, s.producers[k])
    ensures Logged(ProducerNext(s, k, choice))
  {
    var t := ProducerNext(s, k, choice);
    var p := s.producers[k];
    var more := GivenMore(s, k, choice);
    FreedByUpdate(s.producers, k, t.producers[k], more);
    hide Claim, MayClaim, Arrive, FreedBy, Given;
  }

  lemma GivenMore(s: State, k: nat, choice: nat) returns (more: multiset<nat>)
    requires ProducerEnabled(s, k, choice) && ProducerAligned(s, s.producers[k])
    ensures var t := ProducerNext(s, k, choice);
      Given(t.producers[k]) == Given(s.producers[k]) + more && t.frees == s.frees + more
      && t.producers == s.producers[k := t.producers[k]]
  {
    var t := ProducerNext(s, k, choice);
    var p := s.producers[k];
    if p.pc.Freeing? && p.pc.next < |p.slice| {
      assert p.slice[..p.pc.next + 1] == p.slice[..p.pc.next] + [p.slice[p.pc.next]];
      more := multiset{p.slice[p.pc.next]};
    } else {
      hide Claim, MayClaim, Arrive;
      more := multiset{};
      assert Freed(t.producers[k]) == Freed(p);
    }
  }

  // ---- Blocks ----

  /** What a producer still has to free is live, and is not among the owner's own blocks. */
  predicate Pending(s: State, p: Producer) {
    forall j | Freed(p) <= j < |p.slice| :: p.slice[j] in s.blocks && p.slice[j] !in s.batch
  }

  predicate AllPending(s: State) {
    forall k | 0 <= k < |s.producers| :: Pending(s, s.producers[k])
  }

  ghost predicate Blocks(s: State) {
    && Distinct(s.ptrs)
    && (s.start.generation == 0 ==> s.batch == [] && forall j | 0 <= j < |s.ptrs| :: s.ptrs[j] in s.blocks)
    && AllPending(s)
    && Batch(s)
  }

  /** The owner's own blocks: live, without repeats, at most the cap, and only held in its loop. */
  ghost predicate Batch(s: State) {
    && Distinct(s.batch)
    && (forall j | 0 <= j < |s.batch| :: s.batch[j] in s.blocks)
    && |s.batch| <= BATCH_CAP
    && (s.owner == Checking || s.owner == Requesting ==> |s.batch| < BATCH_CAP)
    && (OwnerStage(s.owner) < 6 || OwnerStage(s.owner) >= 8 ==> s.batch == [])
  }

  lemma NotOpenYet(c: Config, s: State)
    requires Valid(c) && SetUp(c, s) && Counts(c, s)
    ensures Stage(s.coordinator) < 6 ==> s.start.generation == 0
    ensures Stage(s.coordinator) < 8 ==> s.done.generation == 0
    ensures Threaded(c) && OwnerStage(s.owner) < 5 ==> s.start.generation == 0
  {
    Bounds(c, s);
    hide Producers, Sum, Sliced;
  }

  lemma CoordinatorKeepsBlocks(c: Config, s: State, choice: nat)
    requires Valid(c) && CoordinatorEnabled(c, s, choice) && SetUp(c, s) && Rendezvous(c, s) && Blocks(s)
    ensures Blocks(CoordinatorNext(c, s, choice))
  {
    NotOpenYet(c, s);
    if s.coordinator == Spawning {
      SpawnKeepsBlocks(c, s, choice);
    } else if s.coordinator == Allocating {
      hide Claim, Drop, MayClaim, Rendezvous, Arrive, Plan, Slices;
    } else {
      OtherwiseKeepsBlocks(c, s, choice);
    }
  }

  lemma OtherwiseKeepsBlocks(c: Config, s: State, choice: nat)
    requires Valid(c) && CoordinatorEnabled(c, s, choice) && Blocks(s)
    requires s.coordinator != Spawning && s.coordinator != Allocating
    requires s.coordinator == Begin ==> s.owner == Absent
    ensures Blocks(CoordinatorNext(c, s, choice))
  {
    var t := CoordinatorNext(c, s, choice);
    hide Claim, Drop, MayClaim, Pending;
    assert t.producers == s.producers && t.batch == s.batch && t.blocks == s.blocks && t.ptrs == s.ptrs;
    forall k | 0 <= k < |s.producers|
      ensures Pending(t, t.producers[k])
    {
      SamePending(s, t, s.producers[k]);
    }
  }

  lemma SamePending(s: State, t: State, p: Producer)
    requires Pending(s, p) && t.batch == s.batch && t.blocks == s.blocks
    ensures Pending(t, p)
  {
  }

  lemma SpawnKeepsBlocks(c: Config, s: State, choice: nat)
    requires Valid(c) && CoordinatorEnabled(c, s, choice) && SetUp(c, s) && Blocks(s)
    requires s.coordinator == Spawning && s.start.generation == 0
    ensures Blocks(CoordinatorNext(c, s, choice))
  {
    var t := CoordinatorNext(c, s, choice);
    var n := |s.producers|;
    if n < |Plan(c, s)| {
      var p := t.producers[n];
      SlicesCover(s.ptrs, Chunk(c));
      forall j | 0 <= j < |p.slice|
        ensures p.slice[j] in s.ptrs
      {
        InFlatten(Plan(c, s), n, j);
      }
      hide Slices, Chunk, Plan, SetUp;
      assert Pending(t, p);
      forall k | 0 <= k < n
        ensures Pending(t, t.producers[k])
      {
        SamePending(s, t, s.producers[k]);
      }
    }
  }

  lemma OwnerKeepsBlocks(c: Config, s: State, given: Option<nat>)
    requires Valid(c) && OwnerEnabled(c, s, given) && SetUp(c, s) && Rendezvous(c, s) && Blocks(s)
    ensures Blocks(OwnerNext(c, s, given))
  {
    hide OwnerNext, OwnerEnabled, Pending, Batch, Arrive;
    OwnerOpens(c, s, given);
    OwnerBlocks(c, s, given);
    OwnerKeepsBatch(c, s, given);
    var t := OwnerNext(c, s, given);
    forall k | 0 <= k < |s.producers|
      ensures Pending(t, t.producers[k])
    {
      StillPending(s, t, s.producers[k]);
    }
  }

  lemma OwnerOpens(c: Config, s: State, given: Option<nat>)
    requires Valid(c) && OwnerEnabled(c, s, given) && SetUp(c, s) && Rendezvous(c, s)
    ensures OwnerNext(c, s, given).start.generation == 0 ==> s.start.generation == 0
    ensures s.owner == OwnerAllocating ==> s.start.generation == 0
    ensures OwnerStage(s.owner) >= 6 ==> s.start.generation == 1
  {
    NotOpenYet(c, s);
    OwnerEffect(c, s, given);
    hide OwnerNext, OwnerEnabled, Counts, Aligned, Producers, Sliced;
  }

  /** The owner pre-allocates before the start, and afterwards grows and frees its own batch only. */
  lemma OwnerBlocks(c: Config, s: State, given: Option<nat>)
    requires Valid(c) && OwnerEnabled(c, s, given)
    ensures var t := OwnerNext(c, s, given);
      && t.producers == s.producers
      && if s.owner == OwnerAllocating && t.ptrs != s.ptrs then
           given.Some? && given.value !in s.blocks && t.ptrs == s.ptrs + [given.value]
           && t.blocks == s.blocks + {given.value} && t.batch == s.batch
         else if OwnerStage(s.owner) < 6 then
           t.ptrs == s.ptrs && t.blocks == s.blocks && t.batch == s.batch
         else
           && t.ptrs == s.ptrs
           && (forall x | x in t.batch && x !in s.batch :: x !in s.blocks)
           && (forall x | x in s.blocks && x !in s.batch :: x in t.blocks)
  {
    hide Claim, Drop, MayClaim, Arrive;
    if OwnerStage(s.owner) >= 6 {
      hide OwnerStage;
    }
  }

  lemma StillPending(s: State, t: State, p: Producer)
    requires Pending(s, p)
    requires forall x | x in t.batch && x !in s.batch :: x !in s.blocks
    requires forall x | x in s.blocks && x !in s.batch :: x in t.blocks
    ensures Pending(t, p)
  {
    hide Freed;
  }

  lemma OwnerKeepsBatch(c: Config, s: State, given: Option<nat>)
    requires Valid(c) && OwnerEnabled(c, s, given) && Batch(s)
    ensures Batch(OwnerNext(c, s, given))
  {
    hide Claim, Drop, MayClaim, Arrive;
    if s.owner != Requesting && s.owner != Flushing && s.owner != Draining {
      hide Distinct;
      assert OwnerNext(c, s, given).batch == s.batch;
    }
  }

  /** No two producers have a block in common, and no producer has one twice. */
  lemma PlanDisjoint(c: Config, s: State, i: nat, j: nat, k: nat, l: nat)
    requires Valid(c) && Distinct(s.ptrs) && Sliced(c, s)
    requires i < |s.producers| && j < |s.producers[i].slice| && k < |s.producers| && l < |s.producers[k].slice|
    requires i != k || j != l
    ensures s.producers[i].slice[j] != s.producers[k].slice[l]
  {
    SlicesCover(s.ptrs, Chunk(c));
    SlicesDisjoint(Plan(c, s), i, j, k, l);
  }

  lemma ProducerKeepsBlocks(c: Config, s: State, k: nat, choice: nat)
    requires Valid(c) && ProducerEnabled(s, k, choice) && SetUp(c, s) && Rendezvous(c, s) && Blocks(s)
    ensures Blocks(ProducerNext(s, k, choice))
  {
    var t := ProducerNext(s, k, choice);
    var p := s.producers[k];
    assert ProducerAligned(s, p) && Pending(s, p);
    if p.pc.Freeing? && p.pc.next < |p.slice| {
      FreeKeepsBlocks(c, s, k, choice);
    } else {
      hide SetUp, Claim, MayClaim, Counts, Aligned;
      assert Freed(t.producers[k]) == Freed(p);
      assert t.start.generation == s.start.generation || p.pc == ProducerToStart;
      RestPending(s, t, k);
      ProducerKeepsCounts(c, s, k, choice);
      hide Pending, ProducerNext, ProducerEnabled;
    }
  }

  /** Nothing changes for the others when a producer moves on without freeing. */
  lemma RestPending(s: State, t: State, k: nat)
    requires AllPending(s) && k < |s.producers| && t.batch == s.batch && t.blocks == s.blocks
    requires |t.producers| == |s.producers| && t.producers == s.producers[k := t.producers[k]]
    requires Freed(t.producers[k]) == Freed(s.producers[k]) && t.producers[k].slice == s.producers[k].slice
    ensures AllPending(t)
  {
    forall i | 0 <= i < |t.producers|
      ensures Pending(t, t.producers[i])
    {
      assert Pending(s, s.producers[i]);
    }
  }

  lemma FreeKeepsBlocks(c: Config, s: State, k: nat, choice: nat)
    requires Valid(c) && ProducerEnabled(s, k, choice) && SetUp(c, s) && Blocks(s)
    requires s.producers[k].pc.Freeing? && s.producers[k].pc.next < |s.producers[k].slice|
    requires s.start.generation == 1
    ensures Blocks(ProducerNext(s, k, choice))
  {
    var t := ProducerNext(s, k, choice);
    var p := s.producers[k];
    var j := p.pc.next;
    assert Pending(s, p);
    forall i | 0 <= i < |t.producers|
      ensures Pending(t, t.producers[i])
    {
      assert Pending(s, s.producers[i]);
      forall l | Freed(t.producers[i]) <= l < |t.producers[i].slice|
        ensures t.producers[i].slice[l] in t.blocks
      {
        PlanDisjoint(c, s, i, l, k, j);
      }
    }
  }

  // ---- Slots ----

  predicate Claimed(p: Producer) {
    ProducerStage(p.pc) >= 1
  }

  /** Every lease holds its own live slot. */
  ghost predicate Exclusive(s: State) {
    && WellFormed(s.registry)
    && (s.lease.Some? ==> s.lease.value in s.registry.live)
    && (forall k | 0 <= k < |s.producers| && Claimed(s.producers[k]) ::
          s.producers[k].slot in s.registry.live && s.lease != Some(s.producers[k].slot))
    && (forall i, k | 0 <= i < k < |s.producers| && Claimed(s.producers[i]) && Claimed(s.producers[k]) ::
          s.producers[i].slot != s.producers[k].slot)
  }

  /** The owner's slot is free, and it is the slot that the next claim returns. */
  predicate Hinted(s: State) {
    s.lease == None && s.registry.hint == Some(s.ownerSlot)
  }

  predicate NoneClaimed(s: State) {
    forall k | 0 <= k < |s.producers| :: !Claimed(s.producers[k])
  }

  ghost predicate TakenOver(s: State) {
    exists k | 0 <= k < |s.producers| :: Claimed(s.producers[k]) && s.producers[k].slot == s.ownerSlot
  }

  /** With an owner thread: it holds the slot from its claim to its end, and leaves it to the next claim. */
  ghost predicate ThreadLeased(s: State) {
    && (s.channel.Some? ==> s.lease == Some(s.channel.value.0))
    && (OwnerStage(s.owner) < 2 ==> s.lease == None)
    && (2 <= OwnerStage(s.owner) <= 8 ==> s.lease.Some?)
    && (2 <= OwnerStage(s.owner) <= 8 && Stage(s.coordinator) >= 4 ==> s.lease == Some(s.ownerSlot))
    && (s.owner == OwnerFinished && s.coordinator != Ended ==> Hinted(s))
    && (s.coordinator == Ended ==> s.lease == Some(s.ownerSlot))
  }

  ghost predicate PausedLeased(s: State) {
    && (s.coordinator == Begin ==> s.lease == None)
    && (Stage(s.coordinator) >= 1 ==> s.lease.Some?)
    && (Stage(s.coordinator) >= 4 ==> s.lease == Some(s.ownerSlot))
  }

  ghost predicate ExitedLeased(s: State) {
    && (s.coordinator == Begin ==> s.lease == None)
    && (1 <= Stage(s.coordinator) <= 2 ==> s.lease.Some?)
    && (Stage(s.coordinator) >= 4 ==> s.lease == None && ((Hinted(s) && NoneClaimed(s)) || TakenOver(s)))
  }

  /** Who holds the owner's slot at which point. */
  ghost predicate Leased(c: Config, s: State) {
    match c.owner
    case Active => ThreadLeased(s)
    case Slow => ThreadLeased(s)
    case Paused => PausedLeased(s)
    case Exited => ExitedLeased(s)
  }

  // ---- What a step does to the slots ----

  predicate CoordinatorClaims(c: Config, s: State) {
    (s.coordinator == Begin && !Threaded(c)) || (s.coordinator == Reclaiming && Threaded(c))
  }

  predicate CoordinatorDrops(c: Config, s: State) {
    s.coordinator == HandingOver && c.owner == Exited
  }

  lemma CoordinatorSlots(c: Config, s: State, choice: nat)
    requires Valid(c) && CoordinatorEnabled(c, s, choice)
    ensures var t := CoordinatorNext(c, s, choice);
      if CoordinatorClaims(c, s) then
        MayClaim(s.registry, choice) && t.registry == Claim(s.registry, choice) && t.lease == Some(choice)
      else if CoordinatorDrops(c, s) then
        s.lease.Some? && t.registry == Drop(s.registry, s.lease.value) && t.lease == None
      else
        t.registry == s.registry && t.lease == s.lease
  {
    hide Slices, Chunk, Arrive, Claim, Drop, MayClaim;
  }

  lemma OwnerSlots(c: Config, s: State, given: Option<nat>)
    requires Valid(c) && OwnerEnabled(c, s, given)
    ensures var t := OwnerNext(c, s, given);
      && t.producers == s.producers && t.ownerSlot == s.ownerSlot && t.coordinator == s.coordinator
      && if s.owner == OwnerClaiming then
           given.Some? && MayClaim(s.registry, given.value)
           && t.registry == Claim(s.registry, given.value) && t.lease == given
         else if s.owner == Dropping then
           s.lease.Some? && t.registry == Drop(s.registry, s.lease.value) && t.lease == None
         else
           t.registry == s.registry && t.lease == s.lease
  {
    hide Arrive, Claim, Drop, MayClaim;
  }

  lemma ProducerSlots(s: State, k: nat, choice: nat)
    requires ProducerEnabled(s, k, choice)
    ensures k < |s.producers|
    ensures var t := ProducerNext(s, k, choice); var p := s.producers[k];
      && t.lease == s.lease && t.ownerSlot == s.ownerSlot
      && t.producers == s.producers[k := t.producers[k]] && Claimed(t.producers[k])
      && t.coordinator == s.coordinator && t.owner == s.owner
      && if p.pc == Claiming then
           MayClaim(s.registry, choice) && t.registry == Claim(s.registry, choice) && t.producers[k].slot == choice
         else
           t.registry == s.registry && t.producers[k].slot == p.slot && Claimed(p)
  {
    hide Arrive, Claim, MayClaim;
  }

  lemma CoordinatorKeepsExclusive(c: Config, s: State, choice: nat)
    requires Valid(c) && CoordinatorEnabled(c, s, choice) && Exclusive(s)
    requires s.coordinator == Begin ==> s.producers == [] && s.owner == Absent
    ensures Exclusive(CoordinatorNext(c, s, choice))
  {
    hide CoordinatorNext, CoordinatorEnabled, Claim, Drop, MayClaim, HeapSlots.WellFormed, Arrive, Stage, OwnerStage;
    CoordinatorSlots(c, s, choice);
    CoordinatorEffect(c, s, choice);
    var t := CoordinatorNext(c, s, choice);
    if CoordinatorClaims(c, s) {
      ClaimIsExclusive(s.registry, choice);
    } else if CoordinatorDrops(c, s) {
      DropFrees(s.registry, s.lease.value);
    }
    if Spawns(s, t) {
      assert forall k | 0 <= k < |s.producers| :: t.producers[k] == t.producers[..|s.producers|][k];
    }
  }

  lemma OwnerKeepsExclusive(c: Config, s: State, given: Option<nat>)
    requires Valid(c) && OwnerEnabled(c, s, given) && Exclusive(s)
    ensures Exclusive(OwnerNext(c, s, given))
  {
    hide OwnerNext, OwnerEnabled, Claim, Drop, MayClaim, HeapSlots.WellFormed;
    OwnerSlots(c, s, given);
    if s.owner == OwnerClaiming {
      ClaimIsExclusive(s.registry, given.value);
    } else if s.owner == Dropping {
      DropFrees(s.registry, s.lease.value);
    }
  }

  lemma ProducerKeepsExclusive(s: State, k: nat, choice: nat)
    requires ProducerEnabled(s, k, choice) && Exclusive(s)
    ensures Exclusive(ProducerNext(s, k, choice))
  {
    hide ProducerNext, ProducerEnabled, Claim, MayClaim, HeapSlots.WellFormed;
    ProducerSlots(s, k, choice);
    if s.producers[k].pc == Claiming {
      ClaimIsExclusive(s.registry, choice);
    }
  }

  lemma CoordinatorKeepsLeased(c: Config, s: State, choice: nat)
    requires Valid(c) && CoordinatorEnabled(c, s, choice) && SetUp(c, s) && Rendezvous(c, s) && Joins(c, s)
    requires Leased(c, s)
    ensures Leased(c, CoordinatorNext(c, s, choice))
  {
    NotOpenYet(c, s);
    if Threaded(c) {
      CoordinatorKeepsThreadLeased(c, s, choice);
    } else if c.owner == Exited {
      CoordinatorKeepsExitedLeased(c, s, choice);
    } else {
      hide Slices, Chunk, Producers, Sliced, Rendezvous, Joins, Arrive;
    }
  }

  lemma CoordinatorKeepsThreadLeased(c: Config, s: State, choice: nat)
    requires Valid(c) && CoordinatorEnabled(c, s, choice) && SetUp(c, s) && Joins(c, s) && ThreadLeased(s)
    requires Threaded(c) && (Stage(s.coordinator) < 6 ==> OwnerStage(s.owner) < 6)
    ensures ThreadLeased(CoordinatorNext(c, s, choice))
  {
    hide Slices, Chunk, Producers, Sliced, Joined, Arrive;
  }

  lemma CoordinatorKeepsExitedLeased(c: Config, s: State, choice: nat)
    requires Valid(c) && CoordinatorEnabled(c, s, choice) && SetUp(c, s) && ExitedLeased(s)
    requires c.owner == Exited
    ensures ExitedLeased(CoordinatorNext(c, s, choice))
  {
    hide Slices, Chunk, Producers, Sliced, Arrive;
    var t := CoordinatorNext(c, s, choice);
    if Stage(s.coordinator) >= 4 && TakenOver(s) {
      var k :| 0 <= k < |s.producers| && Claimed(s.producers[k]) && s.producers[k].slot == s.ownerSlot;
      assert t.producers[k] == s.producers[k];
    }
  }

  lemma OwnerKeepsLeased(c: Config, s: State, given: Option<nat>)
    requires Valid(c) && OwnerEnabled(c, s, given) && SetUp(c, s) && Rendezvous(c, s) && Joins(c, s)
    requires Leased(c, s)
    ensures Leased(c, OwnerNext(c, s, given))
  {
    assert Threaded(c) && s.owner != OwnerFinished && s.owner != Absent && s.coordinator != Ended;
    hide OwnerNext, OwnerEnabled, Rendezvous, Joins, Claim, Sliced, Producers;
    OwnerSlots(c, s, given);
    OwnerAdvances(c, s, given);
  }

  /** Once the start barrier is open, every producer has been spawned and has arrived at it. */
  lemma OpenMeansAllArrived(c: Config, s: State)
    requires Valid(c) && SetUp(c, s) && Counts(c, s) && s.start.generation == 1
    ensures Stage(s.coordinator) >= 6 && |s.producers| == Producers(c)
    ensures Threaded(c) ==> OwnerStage(s.owner) >= 5
    ensures forall k | 0 <= k < |s.producers| :: ProducerStage(s.producers[k].pc) >= 2
  {
    Bounds(c, s);
    FullSum(s.producers, PastStart);
    assert forall k | 0 <= k < |s.producers| :: PastStart(s.producers[k]) == 1;
  }

  lemma ProducerKeepsLeased(c: Config, s: State, k: nat, choice: nat)
    requires Valid(c) && ProducerEnabled(s, k, choice) && SetUp(c, s) && Rendezvous(c, s)
    requires Leased(c, s)
    ensures Leased(c, ProducerNext(s, k, choice))
  {
    if s.start.generation == 1 {
      OpenMeansAllArrived(c, s);
    }
    if c.owner == Exited {
      ProducerKeepsExitedLeased(s, k, choice);
    } else {
      hide Slices, Chunk, Producers, Sliced, Counts, Arrive, Aligned;
    }
  }

  lemma ProducerKeepsExitedLeased(s: State, k: nat, choice: nat)
    requires ProducerEnabled(s, k, choice) && ExitedLeased(s)
    ensures ExitedLeased(ProducerNext(s, k, choice))
  {
    hide ProducerNext, ProducerEnabled;
    ProducerSlots(s, k, choice);
    var t := ProducerNext(s, k, choice);
    if TakenOver(s) {
      var i :| 0 <= i < |s.producers| && Claimed(s.producers[i]) && s.producers[i].slot == s.ownerSlot;
      assert Claimed(t.producers[i]) && t.producers[i].slot == t.ownerSlot;
    } else if s.producers[k].pc == Claiming && Hinted(s) {
      assert Claimed(t.producers[k]) && t.producers[k].slot == t.ownerSlot;
    }
  }

  // ---- Room in the registry ----

  function HasSlot(p: Producer): nat {
    if Claimed(p) then 1 else 0
  }

  /** Every slot that was available at the start is available still, or held by the owner's lease or a producer. */
  ghost predicate Accounted(c: Config, s: State) {
    Available(s.registry) + Sum(s.producers, HasSlot) + (if s.lease.Some? then 1 else 0) == c.room
  }

  lemma CoordinatorKeepsAccounted(c: Config, s: State, choice: nat)
    requires Valid(c) && CoordinatorEnabled(c, s, choice) && Exclusive(s) && Accounted(c, s)
    requires s.coordinator == Begin ==> s.lease == None && s.owner == Absent
    requires s.coordinator == Reclaiming && Threaded(c) ==> s.lease == None
    ensures Accounted(c, CoordinatorNext(c, s, choice))
  {
    hide CoordinatorNext, CoordinatorEnabled, Claim, Drop, MayClaim, HeapSlots.WellFormed, Available, Sum, Arrive;
    CoordinatorSlots(c, s, choice);
    CoordinatorEffect(c, s, choice);
    var t := CoordinatorNext(c, s, choice);
    if CoordinatorClaims(c, s) {
      ClaimTakesOne(s.registry, choice);
    } else if CoordinatorDrops(c, s) {
      DropGivesOne(s.registry, s.lease.value);
    }
    if Spawns(s, t) {
      var p := t.producers[|s.producers|];
      assert t.producers == s.producers + [p];
      SumOfMore(s.producers, p, HasSlot);
    }
  }

  lemma OwnerKeepsAccounted(c: Config, s: State, given: Option<nat>)
    requires Valid(c) && OwnerEnabled(c, s, given) && Exclusive(s) && Accounted(c, s)
    requires s.owner == OwnerClaiming ==> s.lease == None
    ensures Accounted(c, OwnerNext(c, s, given))
  {
    hide OwnerNext, OwnerEnabled, Claim, Drop, MayClaim, HeapSlots.WellFormed, Available, Sum;
    OwnerSlots(c, s, given);
    if s.owner == OwnerClaiming {
      ClaimTakesOne(s.registry, given.value);
    } else if s.owner == Dropping {
      DropGivesOne(s.registry, s.lease.value);
    }
  }

  lemma ProducerKeepsAccounted(c: Config, s: State, k: nat, choice: nat)
    requires ProducerEnabled(s, k, choice) && Exclusive(s) && Accounted(c, s)
    ensures Accounted(c, ProducerNext(s, k, choice))
  {
    hide ProducerNext, ProducerEnabled, Claim, MayClaim, HeapSlots.WellFormed, Available, Sum;
    ProducerSlots(s, k, choice);
    var t := ProducerNext(s, k, choice);
    SumOfUpdate(s.producers, k, t.producers[k], HasSlot);
    assert Sum(t.producers, HasSlot) + HasSlot(s.producers[k]) == Sum(s.producers, HasSlot) + HasSlot(t.producers[k]);
    if s.producers[k].pc == Claiming {
      ClaimTakesOne(s.registry, choice);
    }
  }

  /** What a whole cell claims at its peak: one slot for each producer, and one for an owner that stays. */
  function Needed(c: Config): nat
    requires Valid(c)
  {
    Producers(c) + (if c.owner == Exited then 0 else 1)
  }

  /** The registry has the slots, and the allocator the blocks, that the cell asks for. */
  predicate Granted(c: Config)
    requires Valid(c)
  {
    Needed(c) <= c.room && c.burst <= c.supply
  }

  /** Some thread is about to claim, and no slot is left; or to pre-allocate, and the allocator answers null. */
  ghost predicate Refused(c: Config, s: State) {
    || (Available(s.registry) == 0
        && ((s.coordinator == Begin && !Threaded(c)) || s.owner == OwnerClaiming || !AllClaimed(s)))
    || (|s.ptrs| == c.supply < c.burst && (s.coordinator == Allocating || s.owner == OwnerAllocating))
  }

  predicate AllClaimed(s: State) {
    forall k | 0 <= k < |s.producers| :: Claimed(s.producers[k])
  }

  /** Nobody is refused in a cell that is granted what it needs. */
  lemma GrantedNotRefused(c: Config, s: State)
    requires Valid(c) && SetUp(c, s) && Leased(c, s) && Accounted(c, s) && Granted(c)
    ensures !Refused(c, s)
  {
    Bounds(c, s);
    FullSum(s.producers, HasSlot);
    hide Producers, Sliced, Available;
    if !AllClaimed(s) {
      var k :| 0 <= k < |s.producers| && !Claimed(s.producers[k]);
      assert HasSlot(s.producers[k]) == 0;
      hide Sum;
    }
  }
}
