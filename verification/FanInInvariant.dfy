/** What every step of the fan-in burst keeps. */
module FanInInvariant {
  import opened FreeSets
  import opened Chunks
  import opened HeapSlots
  import opened FanIn

  function Stage(pc: CoordinatorPc): nat {
    match pc
    case Begin => 0
    case Allocating => 1
    case HandingOver => 2
    case Receiving => 3
    case Spawning => 4
    case ToStart => 5
    case AtStart(_) => 6
    case ToDone => 7
    case AtDone(_) => 8
    case Stopping => 9
    case JoiningOwner => 10
    case JoiningProducers(_) => 11
    case Reclaiming => 12
    case Ended => 13
  }

  function OwnerStage(pc: OwnerPc): nat {
    match pc
    case Absent => 0
    case OwnerClaiming => 1
    case OwnerAllocating => 2
    case Sending => 3
    case OwnerToStart => 4
    case OwnerAtStart(_) => 5
    case Checking => 6
    case Requesting => 6
    case Capping => 6
    case Flushing => 6
    case Draining => 7
    case Dropping => 8
    case OwnerFinished => 9
  }

  function ProducerStage(pc: ProducerPc): nat {
    match pc
    case Claiming => 0
    case ProducerToStart => 1
    case ProducerAtStart(_) => 2
    case Freeing(_) => 3
    case ProducerToDone => 4
    case ProducerAtDone(_) => 5
    case Finished => 6
  }

  // ---- Sums over the producers ----

  function Sum(ps: seq<Producer>, f: Producer -> nat): nat {
    if ps == [] then 0 else Sum(ps[..|ps| - 1], f) + f(ps[|ps| - 1])
  }

  function PastStart(p: Producer): nat {
    if ProducerStage(p.pc) >= 2 then 1 else 0
  }

  function PastDone(p: Producer): nat {
    if ProducerStage(p.pc) >= 5 then 1 else 0
  }

  function Length(p: Producer): nat {
    |p.slice|
  }

  lemma SumOfMore(ps: seq<Producer>, p: Producer, f: Producer -> nat)
    ensures Sum(ps + [p], f) == Sum(ps, f) + f(p)
  {
    assert (ps + [p])[..|ps|] == ps;
  }

  lemma {:induction false} SumOfUpdate(ps: seq<Producer>, k: nat, p: Producer, f: Producer -> nat)
    requires k < |ps|
    ensures Sum(ps[k := p], f) + f(ps[k]) == Sum(ps, f) + f(p)
  {
    var n := |ps| - 1;
    if k < n {
      assert ps[k := p][..n] == ps[..n][k := p];
      SumOfUpdate(ps[..n], k, p, f);
    } else {
      assert ps[k := p][..n] == ps[..n];
    }
  }

  /** A sum of zeros and ones is full exactly when every term is one. */
  lemma {:induction false} FullSum(ps: seq<Producer>, f: Producer -> nat)
    requires forall k | 0 <= k < |ps| :: f(ps[k]) <= 1
    ensures Sum(ps, f) <= |ps|
    ensures Sum(ps, f) == |ps| <==> forall k | 0 <= k < |ps| :: f(ps[k]) == 1
  {
    if ps != [] {
      var n := |ps| - 1;
      assert forall k | 0 <= k < n :: ps[..n][k] == ps[k];
      FullSum(ps[..n], f);
    }
  }

  // ---- The parts of the invariant ----

  ghost function Plan(c: Config, s: State): seq<seq<nat>>
    requires Valid(c)
  {
    Slices(s.ptrs, Chunk(c))
  }

  ghost predicate Sliced(c: Config, s: State)
    requires Valid(c)
  {
    |s.producers| <= |Plan(c, s)|
    && forall k | 0 <= k < |s.producers| :: s.producers[k].slice == Plan(c, s)[k]
  }

  /** Who has got how far, relative to the coordinator, and what has been handed over. */
  ghost predicate SetUp(c: Config, s: State)
    requires Valid(c)
  {
    && |s.ptrs| <= c.burst && |s.ptrs| <= c.supply
    && (Stage(s.coordinator) >= 4 ==> s.addrs == s.ptrs && |s.ptrs| == c.burst && Sliced(c, s))
    && (Stage(s.coordinator) < 4 ==> s.producers == [])
    && (Stage(s.coordinator) > 4 ==> |s.producers| == Producers(c))
    && (if Threaded(c) then
          && s.coordinator != Allocating && s.coordinator != HandingOver
          && (s.owner == Absent <==> s.coordinator == Begin)
          && (OwnerStage(s.owner) < 2 ==> s.ptrs == [])
          && (OwnerStage(s.owner) > 2 ==> |s.ptrs| == c.burst)
          && (Stage(s.coordinator) >= 4 ==> OwnerStage(s.owner) >= 4)
          && (s.channel.Some? <==> s.coordinator == Receiving && OwnerStage(s.owner) >= 4)
          && (s.channel.Some? ==> s.channel.value.1 == s.ptrs)
        else
          && s.owner == Absent && s.coordinator != Receiving && s.channel.None?
          && (s.coordinator == Begin ==> s.ptrs == [])
          && (Stage(s.coordinator) >= 2 ==> |s.ptrs| == c.burst))
  }

  /** A barrier of the given size that is used once: it counts its arrivals and opens at the last. */
  predicate Tracks(b: Barrier, size: nat, arrived: nat) {
    b.size == size && arrived <= size
    && (if arrived < size then b.count == arrived && b.generation == 0 else b.count == 0 && b.generation == 1)
  }

  function StartArrivals(s: State): nat {
    Sum(s.producers, PastStart)
      + (if Stage(s.coordinator) >= 6 then 1 else 0)
      + (if OwnerStage(s.owner) >= 5 then 1 else 0)
  }

  function DoneArrivals(s: State): nat {
    Sum(s.producers, PastDone) + (if Stage(s.coordinator) >= 8 then 1 else 0)
  }

  /** Both barriers count exactly the threads that have arrived at them. */
  ghost predicate Counts(c: Config, s: State)
    requires Valid(c)
  {
    Tracks(s.start, StartSize(c), StartArrivals(s)) && Tracks(s.done, Producers(c) + 1, DoneArrivals(s))
  }

  /** Whoever waits saw the first generation, and whoever has passed saw the barrier open. */
  ghost predicate Passed(s: State) {
    && (s.coordinator.AtStart? ==> s.coordinator.generation == 0)
    && (s.coordinator.AtDone? ==> s.coordinator.generation == 0)
    && (s.owner.OwnerAtStart? ==> s.owner.generation == 0)
    && (Stage(s.coordinator) >= 7 || OwnerStage(s.owner) >= 6 ==> s.start.generation == 1)
    && (Stage(s.coordinator) >= 9 ==> s.done.generation == 1)
    && Aligned(s)
  }

  ghost predicate Rendezvous(c: Config, s: State)
    requires Valid(c)
  {
    Counts(c, s) && Passed(s)
  }

  predicate Aligned(s: State) {
    forall k | 0 <= k < |s.producers| :: ProducerAligned(s, s.producers[k])
  }

  predicate ProducerAligned(s: State, p: Producer) {
    && (p.pc.ProducerAtStart? ==> p.pc.generation == 0)
    && (p.pc.ProducerAtDone? ==> p.pc.generation == 0)
    && (p.pc.Freeing? ==> p.pc.next <= |p.slice|)
    && (ProducerStage(p.pc) >= 3 ==> s.start.generation == 1)
    && (p.pc == Finished ==> s.done.generation == 1)
  }

  function Joined(s: State): nat {
    if s.coordinator.JoiningProducers? then s.coordinator.joined
    else if Stage(s.coordinator) >= 12 then |s.producers|
    else 0
  }

  /** The stop flag, the joins, and the latencies that the joins collect. */
  ghost predicate Joins(c: Config, s: State) {
    && (s.ownerDone <==> Stage(s.coordinator) >= 10)
    && (OwnerStage(s.owner) >= 7 ==> s.ownerDone)
    && (Threaded(c) && Stage(s.coordinator) >= 11 ==> s.owner == OwnerFinished)
    && Joined(s) <= |s.producers|
    && (forall k | 0 <= k < Joined(s) :: s.producers[k].pc == Finished)
    && s.collected == Sum(s.producers[..Joined(s)], Length)
  }

  // ---- What a step does to the barriers and to the other threads ----

  predicate Spawns(s: State, t: State) {
    s.coordinator == Spawning && t.coordinator == Spawning
    && |t.producers| == |s.producers| + 1 && t.producers[..|s.producers|] == s.producers
    && t.producers[|s.producers|].pc == Claiming
  }

  lemma CoordinatorEffect(c: Config, s: State, choice: nat)
    requires Valid(c) && CoordinatorEnabled(c, s, choice) && (s.coordinator == Begin ==> s.owner == Absent)
    ensures var t := CoordinatorNext(c, s, choice);
      && t.start == (if s.coordinator == ToStart then Arrive(s.start) else s.start)
      && t.done == (if s.coordinator == ToDone then Arrive(s.done) else s.done)
      && (t.producers == s.producers || Spawns(s, t))
      && (OwnerStage(t.owner) >= 5 <==> OwnerStage(s.owner) >= 5)
      && (t.owner == s.owner || t.owner == OwnerClaiming)
      && (Stage(t.coordinator) >= 6 <==> Stage(s.coordinator) >= 6 || s.coordinator == ToStart)
      && (Stage(t.coordinator) >= 8 <==> Stage(s.coordinator) >= 8 || s.coordinator == ToDone)
    ensures var t := CoordinatorNext(c, s, choice);
      && (t.coordinator.AtStart? ==> s.coordinator == ToStart && t.coordinator.generation == s.start.generation)
      && (t.coordinator.AtDone? ==> s.coordinator == ToDone && t.coordinator.generation == s.done.generation)
      && (Stage(t.coordinator) >= 7 && Stage(s.coordinator) < 7 ==>
            s.coordinator.AtStart? && s.start.generation != s.coordinator.generation)
      && (Stage(t.coordinator) >= 9 && Stage(s.coordinator) < 9 ==>
            s.coordinator.AtDone? && s.done.generation != s.coordinator.generation)
  {
    hide Claim, Drop, Slices, Chunk, MayClaim, Arrive;
  }

  lemma OwnerEffect(c: Config, s: State, given: Option<nat>)
    requires Valid(c) && OwnerEnabled(c, s, given)
    ensures var t := OwnerNext(c, s, given);
      && t.start == (if s.owner == OwnerToStart then Arrive(s.start) else s.start)
      && t.done == s.done && t.producers == s.producers && t.coordinator == s.coordinator
      && (OwnerStage(t.owner) >= 5 <==> OwnerStage(s.owner) >= 5 || s.owner == OwnerToStart)
      && (t.owner.OwnerAtStart? ==> s.owner == OwnerToStart && t.owner.generation == s.start.generation)
      && (OwnerStage(t.owner) >= 6 && OwnerStage(s.owner) < 6 ==>
            s.owner.OwnerAtStart? && s.start.generation != s.owner.generation)
  {
    hide Claim, Drop, MayClaim, Arrive;
  }

  lemma ProducerEffect(s: State, k: nat, choice: nat)
    requires ProducerEnabled(s, k, choice)
    ensures var t := ProducerNext(s, k, choice);
      && t.start == (if s.producers[k].pc == ProducerToStart then Arrive(s.start) else s.start)
      && t.done == (if s.producers[k].pc == ProducerToDone then Arrive(s.done) else s.done)
      && |t.producers| == |s.producers| && t.producers == s.producers[k := t.producers[k]]
      && t.coordinator == s.coordinator && t.owner == s.owner
      && t.producers[k].slice == s.producers[k].slice
    ensures var p, q := s.producers[k], ProducerNext(s, k, choice).producers[k];
      && PastStart(q) == (if p.pc == ProducerToStart then 1 else PastStart(p))
      && PastDone(q) == (if p.pc == ProducerToDone then 1 else PastDone(p))
      && (p.pc == ProducerToStart ==> PastStart(p) == 0)
      && (p.pc == ProducerToDone ==> PastDone(p) == 0)
      && (q.pc.ProducerAtStart? ==> p.pc == ProducerToStart && q.pc.generation == s.start.generation)
      && (q.pc.ProducerAtDone? ==> p.pc == ProducerToDone && q.pc.generation == s.done.generation)
      && (q.pc.Freeing? ==> q.pc.next == 0 || q.pc.next <= |p.slice|)
      && (ProducerStage(q.pc) >= 3 && ProducerStage(p.pc) < 3 ==>
            p.pc.ProducerAtStart? && s.start.generation != p.pc.generation)
      && (q.pc == Finished ==> p.pc.ProducerAtDone? && s.done.generation != p.pc.generation)
  {
    hide Claim, MayClaim, Arrive;
  }

  // ---- The invariant holds at the start and is kept by every step ----

  lemma InitialSetUp(c: Config, s: State)
    requires Valid(c) && Initial(c, s)
    ensures SetUp(c, s) && Rendezvous(c, s) && Joins(c, s)
  {
  }

  lemma CoordinatorKeepsSetUp(c: Config, s: State, choice: nat)
    requires Valid(c) && CoordinatorEnabled(c, s, choice) && SetUp(c, s)
    ensures SetUp(c, CoordinatorNext(c, s, choice))
  {
    hide Slices, Chunk, Producers, Claim, Drop, MayClaim, Arrive;
    if s.coordinator == Spawning {
      PlanSize(c, s);
    } else {
      hide Sliced;
      SameSlices(c, s, CoordinatorNext(c, s, choice));
    }
  }

  /** There is one slice for each producer that the barriers are sized for. */
  lemma PlanSize(c: Config, s: State)
    requires Valid(c) && |s.ptrs| == c.burst
    ensures |Plan(c, s)| == Producers(c)
  {
    BarrierSizesMatch(s.ptrs, c.threads);
  }

  lemma OwnerKeepsSetUp(c: Config, s: State, given: Option<nat>)
    requires Valid(c) && OwnerEnabled(c, s, given) && SetUp(c, s)
    ensures SetUp(c, OwnerNext(c, s, given))
  {
    hide OwnerNext, OwnerEnabled, Sliced, Producers;
    OwnerPreallocates(c, s, given);
    OwnerAdvances(c, s, given);
    SameSlices(c, s, OwnerNext(c, s, given));
  }

  /** What the owner pre-allocates; the coordinator and the producers stay where they are. */
  lemma OwnerPreallocates(c: Config, s: State, given: Option<nat>)
    requires Valid(c) && OwnerEnabled(c, s, given)
    ensures var t := OwnerNext(c, s, given);
      && s.owner != Absent && t.coordinator == s.coordinator && t.producers == s.producers && t.addrs == s.addrs
      && if s.owner == OwnerAllocating && |s.ptrs| < c.burst then
           |s.ptrs| < c.supply && |t.ptrs| == |s.ptrs| + 1 && t.owner == OwnerAllocating
         else t.ptrs == s.ptrs
  {
    hide Claim, Drop, MayClaim, Arrive;
  }

  /** Where the owner goes, and what it sends. */
  lemma OwnerAdvances(c: Config, s: State, given: Option<nat>)
    requires Valid(c) && OwnerEnabled(c, s, given)
    ensures var t := OwnerNext(c, s, given);
      && OwnerStage(s.owner) <= OwnerStage(t.owner) <= OwnerStage(s.owner) + 1
      && (OwnerStage(s.owner) == 1 ==> OwnerStage(t.owner) == 2)
      && (s.owner == Sending ==> OwnerStage(t.owner) == 4)
      && (OwnerStage(t.owner) == 9 ==> s.owner == Dropping) && (s.owner == Dropping ==> t.owner == OwnerFinished)
      && (if s.owner == Sending then
            s.lease.Some? && t.channel == Some((s.lease.value, s.ptrs))
          else
            t.channel == s.channel)
  {
    hide Arrive, Claim, Drop, MayClaim;
  }

  lemma SameSlices(c: Config, s: State, t: State)
    requires Valid(c)
    ensures t.producers == s.producers && t.ptrs == s.ptrs ==> (Sliced(c, t) <==> Sliced(c, s))
    ensures t.producers == [] ==> Sliced(c, t)
  {
    hide Slices, Chunk;
  }

  lemma ProducerKeepsSetUp(c: Config, s: State, k: nat, choice: nat)
    requires Valid(c) && ProducerEnabled(s, k, choice) && SetUp(c, s)
    ensures SetUp(c, ProducerNext(s, k, choice))
  {
    var t := ProducerNext(s, k, choice);
    assert t.ptrs == s.ptrs;
    assert Plan(c, t) == Plan(c, s);
  }

  /** There are never more producers than the barriers allow for. */
  lemma Bounds(c: Config, s: State)
    requires Valid(c) && SetUp(c, s)
    ensures |s.producers| <= Producers(c)
    ensures Sum(s.producers, PastStart) <= |s.producers|
    ensures Sum(s.producers, PastDone) <= |s.producers|
  {
    FullSum(s.producers, PastStart);
    FullSum(s.producers, PastDone);
    if Stage(s.coordinator) >= 4 {
      BarrierSizesMatch(s.ptrs, c.threads);
    }
  }

  lemma ArriveTracks(b: Barrier, size: nat, arrived: nat)
    requires Tracks(b, size, arrived) && arrived < size
    ensures Tracks(Arrive(b), size, arrived + 1) && b.generation == 0
  {
  }

  lemma CoordinatorArrivals(c: Config, s: State, choice: nat)
    requires Valid(c) && CoordinatorEnabled(c, s, choice) && (s.coordinator == Begin ==> s.owner == Absent)
    ensures var t := CoordinatorNext(c, s, choice);
      && StartArrivals(t) == StartArrivals(s) + (if s.coordinator == ToStart then 1 else 0)
      && DoneArrivals(t) == DoneArrivals(s) + (if s.coordinator == ToDone then 1 else 0)
  {
    var t := CoordinatorNext(c, s, choice);
    CoordinatorEffect(c, s, choice);
    hide CoordinatorNext, CoordinatorEnabled, Arrive, Sum;
    if Spawns(s, t) {
      var p := t.producers[|s.producers|];
      assert t.producers == s.producers + [p];
      SumOfMore(s.producers, p, PastStart);
      SumOfMore(s.producers, p, PastDone);
    }
  }

  lemma BeginsAlone(c: Config, s: State)
    requires Valid(c) && SetUp(c, s)
    ensures s.coordinator == Begin ==> s.owner == Absent && s.producers == []
  {
  }

  /** While somebody has yet to arrive at a barrier, the barrier has room. */
  lemma RoomForCoordinator(c: Config, s: State)
    requires Valid(c) && SetUp(c, s)
    ensures s.coordinator == ToStart ==> StartArrivals(s) < StartSize(c)
    ensures s.coordinator == ToDone ==> DoneArrivals(s) < Producers(c) + 1
  {
    Bounds(c, s);
    hide Producers, Sum, Sliced;
  }

  lemma CoordinatorKeepsCounts(c: Config, s: State, choice: nat)
    requires Valid(c) && CoordinatorEnabled(c, s, choice) && SetUp(c, s) && Counts(c, s)
    ensures Counts(c, CoordinatorNext(c, s, choice))
    ensures s.coordinator == ToStart ==> s.start.generation == 0
    ensures s.coordinator == ToDone ==> s.done.generation == 0
  {
    hide SetUp, Producers, StartSize, CoordinatorNext, CoordinatorEnabled, StartArrivals, DoneArrivals, Arrive, Tracks;
    BeginsAlone(c, s);
    CoordinatorEffect(c, s, choice);
    CoordinatorArrivals(c, s, choice);
    RoomForCoordinator(c, s);
    if s.coordinator == ToStart {
      ArriveTracks(s.start, StartSize(c), StartArrivals(s));
    } else if s.coordinator == ToDone {
      ArriveTracks(s.done, Producers(c) + 1, DoneArrivals(s));
    }
  }

  lemma AlignedAfterSpawn(s: State, t: State)
    requires Aligned(s) && Spawns(s, t) && t.start == s.start && t.done == s.done
    ensures Aligned(t)
  {
    forall i | 0 <= i < |s.producers|
      ensures ProducerAligned(t, t.producers[i])
    {
      assert t.producers[..|s.producers|][i] == t.producers[i];
      assert ProducerAligned(s, s.producers[i]);
    }
  }

  lemma CoordinatorKeepsRendezvous(c: Config, s: State, choice: nat)
    requires Valid(c) && CoordinatorEnabled(c, s, choice) && SetUp(c, s) && Rendezvous(c, s)
    ensures Rendezvous(c, CoordinatorNext(c, s, choice))
  {
    var t := CoordinatorNext(c, s, choice);
    CoordinatorKeepsCounts(c, s, choice);
    CoordinatorEffect(c, s, choice);
    BarriersOpenOnce(c, s);
    BarriersOpenOnce(c, t);
    hide SetUp, Counts, CoordinatorNext, CoordinatorEnabled, Aligned;
    if Spawns(s, t) {
      AlignedAfterSpawn(s, t);
    } else {
      hide Spawns;
      AlignedAfter(s, t);
    }
  }

  lemma BarriersOpenOnce(c: Config, s: State)
    requires Valid(c) && Counts(c, s)
    ensures s.start.generation <= 1 && s.done.generation <= 1
  {
  }

  /** Opening a barrier does not disturb the producers. */
  lemma AlignedAfter(s: State, t: State)
    requires Aligned(s)
    requires t.producers == s.producers
    requires t.start.generation == s.start.generation || s.start.generation == 0
    requires t.done.generation == s.done.generation || s.done.generation == 0
    ensures Aligned(t)
  {
    forall k | 0 <= k < |t.producers|
      ensures ProducerAligned(t, t.producers[k])
    {
      assert ProducerAligned(s, s.producers[k]);
    }
  }

  lemma OwnerKeepsRendezvous(c: Config, s: State, given: Option<nat>)
    requires Valid(c) && OwnerEnabled(c, s, given) && SetUp(c, s) && Rendezvous(c, s)
    ensures Rendezvous(c, OwnerNext(c, s, given))
  {
    Bounds(c, s);
    OwnerEffect(c, s, given);
    assert Threaded(c);
    var t := OwnerNext(c, s, given);
    hide Producers, SetUp, OwnerNext, OwnerEnabled, Sum, Arrive;
    if s.owner == OwnerToStart {
      ArriveTracks(s.start, StartSize(c), StartArrivals(s));
    }
    AlignedAfter(s, t);
  }

  /** A producer that has not arrived leaves room in both barriers' counts. */
  lemma NotAll(ps: seq<Producer>, k: nat)
    requires k < |ps|
    ensures PastStart(ps[k]) == 0 ==> Sum(ps, PastStart) < |ps|
    ensures PastDone(ps[k]) == 0 ==> Sum(ps, PastDone) < |ps|
  {
    FullSum(ps, PastStart);
    FullSum(ps, PastDone);
  }

  lemma ProducerArrivals(s: State, k: nat, choice: nat)
    requires ProducerEnabled(s, k, choice)
    ensures var t := ProducerNext(s, k, choice);
      && StartArrivals(t) == StartArrivals(s) + (if s.producers[k].pc == ProducerToStart then 1 else 0)
      && DoneArrivals(t) == DoneArrivals(s) + (if s.producers[k].pc == ProducerToDone then 1 else 0)
  {
    var t := ProducerNext(s, k, choice);
    SumOfUpdate(s.producers, k, t.producers[k], PastStart);
    SumOfUpdate(s.producers, k, t.producers[k], PastDone);
    ProducerEffect(s, k, choice);
    assert PastStart(s.producers[k]) + Sum(t.producers, PastStart)
      == Sum(s.producers, PastStart) + PastStart(t.producers[k]);
    assert PastDone(s.producers[k]) + Sum(t.producers, PastDone)
      == Sum(s.producers, PastDone) + PastDone(t.producers[k]);
    hide ProducerNext, ProducerEnabled, Sum, Arrive, PastStart, PastDone;
  }

  lemma RoomForProducer(c: Config, s: State, k: nat)
    requires Valid(c) && SetUp(c, s) && k < |s.producers|
    ensures s.producers[k].pc == ProducerToStart ==> StartArrivals(s) < StartSize(c)
    ensures s.producers[k].pc == ProducerToDone ==> DoneArrivals(s) < Producers(c) + 1
  {
    Bounds(c, s);
    NotAll(s.producers, k);
    hide Producers, Sum, Sliced;
  }

  lemma ProducerKeepsCounts(c: Config, s: State, k: nat, choice: nat)
    requires Valid(c) && ProducerEnabled(s, k, choice) && SetUp(c, s) && Counts(c, s)
    ensures Counts(c, ProducerNext(s, k, choice))
    ensures s.producers[k].pc == ProducerToStart ==> s.start.generation == 0
    ensures s.producers[k].pc == ProducerToDone ==> s.done.generation == 0
  {
    ProducerEffect(s, k, choice);
    ProducerArrivals(s, k, choice);
    RoomForProducer(c, s, k);
    hide SetUp, Producers, StartSize, ProducerNext, ProducerEnabled, StartArrivals, DoneArrivals, Arrive, Tracks;
    if s.producers[k].pc == ProducerToStart {
      ArriveTracks(s.start, StartSize(c), StartArrivals(s));
    } else if s.producers[k].pc == ProducerToDone {
      ArriveTracks(s.done, Producers(c) + 1, DoneArrivals(s));
    }
  }

  lemma ProducerKeepsRendezvous(c: Config, s: State, k: nat, choice: nat)
    requires Valid(c) && ProducerEnabled(s, k, choice) && SetUp(c, s) && Rendezvous(c, s)
    ensures Rendezvous(c, ProducerNext(s, k, choice))
  {
    var t := ProducerNext(s, k, choice);
    ProducerKeepsCounts(c, s, k, choice);
    ProducerEffect(s, k, choice);
    BarriersOpenOnce(c, s);
    BarriersOpenOnce(c, t);
    hide SetUp, Counts, ProducerNext, ProducerEnabled;
    assert ProducerAligned(s, s.producers[k]);
    assert ProducerAligned(t, t.producers[k]);
    OthersAligned(s, t, k);
  }

  lemma OthersAligned(s: State, t: State, k: nat)
    requires k < |s.producers| && |t.producers| == |s.producers|
    requires Aligned(s)
    requires forall i | 0 <= i < |s.producers| && i != k :: t.producers[i] == s.producers[i]
    requires t.start.generation == s.start.generation || s.start.generation == 0
    requires t.done.generation == s.done.generation || s.done.generation == 0
    requires ProducerAligned(t, t.producers[k])
    ensures Aligned(t)
  {
    forall i | 0 <= i < |t.producers|
      ensures ProducerAligned(t, t.producers[i])
    {
      assert ProducerAligned(s, s.producers[i]);
    }
  }

  /** Joining producer `k` adds its latencies, and only then. */
  lemma JoinEffect(c: Config, s: State, choice: nat)
    requires Valid(c) && CoordinatorEnabled(c, s, choice) && Joins(c, s)
    requires s.coordinator.JoiningProducers?
    ensures Joins(c, CoordinatorNext(c, s, choice))
  {
    hide Slices, Chunk, Claim, Drop, MayClaim, Arrive, Sum;
    var k := s.coordinator.joined;
    if k < |s.producers| {
      SumOfMore(s.producers[..k], s.producers[k], Length);
      assert s.producers[..k] + [s.producers[k]] == s.producers[..k + 1];
    }
  }

  lemma CoordinatorKeepsJoins(c: Config, s: State, choice: nat)
    requires Valid(c) && CoordinatorEnabled(c, s, choice) && SetUp(c, s) && Joins(c, s)
    ensures Joins(c, CoordinatorNext(c, s, choice))
  {
    if s.coordinator.JoiningProducers? {
      JoinEffect(c, s, choice);
    } else {
      hide Producers, Chunk, Plan, Slices, Claim, Drop, MayClaim, Sum, Arrive;
      var t := CoordinatorNext(c, s, choice);
      assert Joined(t) == Joined(s);
      assert t.producers[..Joined(t)] == s.producers[..Joined(s)];
    }
  }

  lemma OwnerKeepsJoins(c: Config, s: State, given: Option<nat>)
    requires Valid(c) && OwnerEnabled(c, s, given) && SetUp(c, s) && Joins(c, s)
    ensures Joins(c, OwnerNext(c, s, given))
  {
  }

  lemma ProducerKeepsJoins(c: Config, s: State, k: nat, choice: nat)
    requires Valid(c) && ProducerEnabled(s, k, choice) && SetUp(c, s) && Joins(c, s)
    ensures Joins(c, ProducerNext(s, k, choice))
  {
    var t := ProducerNext(s, k, choice);
    assert k >= Joined(s);
    assert t.producers[..Joined(s)] == s.producers[..Joined(s)];
  }
}
