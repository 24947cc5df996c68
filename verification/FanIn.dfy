/**
 * The fan-in burst as interleaved atomic steps: a coordinator, an owner thread (for the active and
 * slow owners) and one producer thread per slice of the pre-allocated addresses. Allocation and slot
 * claims are open choices, carried by the step.
 */
module FanIn {
  import opened FreeSets
  import opened Chunks
  import opened HeapSlots

  datatype OwnerState = Active | Slow | Paused | Exited

  /**
    * `room` is how many slots the registry has left when the cell starts, `supply` how many blocks the
    * allocator grants to the pre-allocation before it answers null.
    */
  datatype Config = Config(threads: nat, burst: nat, owner: OwnerState, room: nat, supply: nat)

  predicate Valid(c: Config) {
    c.threads > 0 && c.burst > 0
  }

  predicate Threaded(c: Config) {
    c.owner == Active || c.owner == Slow
  }

  /** A reusable barrier: the arrival that completes the count opens the next generation. */
  datatype Barrier = Barrier(size: nat, count: nat, generation: nat)

  function Arrive(b: Barrier): Barrier {
    if b.count + 1 < b.size then b.(count := b.count + 1)
    else b.(count := 0, generation := b.generation + 1)
  }

  datatype CoordinatorPc =
    | Begin
    | Allocating
    | HandingOver
    | Receiving
    | Spawning
    | ToStart
    | AtStart(generation: nat)
    | ToDone
    | AtDone(generation: nat)
    | Stopping
    | JoiningOwner
    | JoiningProducers(joined: nat)
    | Reclaiming
    | Ended

  datatype OwnerPc =
    | Absent
    | OwnerClaiming
    | OwnerAllocating
    | Sending
    | OwnerToStart
    | OwnerAtStart(generation: nat)
    | Checking
    | Requesting
    | Capping
    | Flushing
    | Draining
    | Dropping
    | OwnerFinished

  datatype ProducerPc =
    | Claiming
    | ProducerToStart
    | ProducerAtStart(generation: nat)
    | Freeing(next: nat)
    | ProducerToDone
    | ProducerAtDone(generation: nat)
    | Finished

  datatype Producer = Producer(slice: seq<nat>, pc: ProducerPc, slot: nat)

  /**
   * `ptrs` are the pre-allocated blocks, `lease` the owner's lease (held by the owner thread, or by
   * the coordinator when there is none), `blocks` all live blocks, `frees` the producers' frees.
   */
  datatype State = State(
    coordinator: CoordinatorPc,
    owner: OwnerPc,
    producers: seq<Producer>,
    channel: Option<(nat, seq<nat>)>,
    start: Barrier,
    done: Barrier,
    ownerDone: bool,
    registry: Registry,
    lease: Option<nat>,
    ptrs: seq<nat>,
    ownerSlot: nat,
    addrs: seq<nat>,
    batch: seq<nat>,
    blocks: set<nat>,
    frees: multiset<nat>,
    collected: nat)

  /** A step names the thread and, where the outside world decides, the slot or block it was given. */
  datatype Step =
    | CoordinatorStep(choice: nat)
    | OwnerStep(given: Option<nat>)
    | ProducerStep(index: nat, choice: nat)

  const BATCH_CAP: nat := 4096

  function Chunk(c: Config): (k: nat)
    requires Valid(c)
    ensures k > 0
  {
    DivCeilPositive(c.burst, c.threads);
    ChunkSize(c.burst, c.threads)
  }

  function Producers(c: Config): nat
    requires Valid(c)
  {
    EffectiveThreads(c.burst, c.threads)
  }

  function StartSize(c: Config): nat
    requires Valid(c)
  {
    Producers(c) + 1 + (if Threaded(c) then 1 else 0)
  }

  ghost predicate Initial(c: Config, s: State)
    requires Valid(c)
  {
    s.coordinator == Begin && s.owner == Absent && s.producers == [] && s.channel == None
    && s.start == Barrier(StartSize(c), 0, 0) && s.done == Barrier(Producers(c) + 1, 0, 0)
    && !s.ownerDone && WellFormed(s.registry) && Available(s.registry) == c.room && s.lease == None && s.ptrs == [] && s.addrs == []
    && s.batch == [] && s.frees == multiset{} && s.collected == 0
  }

  // ---- The coordinator ----

  predicate CoordinatorEnabled(c: Config, s: State, choice: nat) {
    match s.coordinator
    case Begin => Threaded(c) || MayClaim(s.registry, choice)
    case Allocating => |s.ptrs| < c.burst ==> |s.ptrs| < c.supply && choice !in s.blocks
    case HandingOver => s.lease.Some?
    case Receiving => s.channel.Some?
    case AtStart(generation) => s.start.generation != generation
    case AtDone(generation) => s.done.generation != generation
    case JoiningOwner => Threaded(c) ==> s.owner == OwnerFinished
    case JoiningProducers(joined) => joined < |s.producers| ==> s.producers[joined].pc == Finished
    case Reclaiming => Threaded(c) ==> MayClaim(s.registry, choice)
    case Ended => false
    case _ => true
  }

  function CoordinatorNext(c: Config, s: State, choice: nat): State
    requires Valid(c) && CoordinatorEnabled(c, s, choice)
  {
    match s.coordinator
    case Begin =>
      if Threaded(c) then
        s.(coordinator := Receiving, owner := OwnerClaiming)
      else
        s.(coordinator := Allocating, registry := Claim(s.registry, choice), lease := Some(choice))
    case Allocating =>
      if |s.ptrs| < c.burst then
        s.(ptrs := s.ptrs + [choice], blocks := s.blocks + {choice})
      else
        s.(coordinator := HandingOver)
    case HandingOver =>
      var t := s.(coordinator := Spawning, ownerSlot := s.lease.value, addrs := s.ptrs);
      if c.owner == Exited then
        t.(lease := None, registry := Drop(s.registry, s.lease.value))
      else
        t
    case Receiving =>
      s.(coordinator := Spawning, ownerSlot := s.channel.value.0, addrs := s.channel.value.1, channel := None)
    case Spawning =>
      var slices := Slices(s.addrs, Chunk(c));
      if |s.producers| < |slices| then
        s.(producers := s.producers + [Producer(slices[|s.producers|], Claiming, 0)])
      else
        s.(coordinator := ToStart)
    case ToStart => s.(coordinator := AtStart(s.start.generation), start := Arrive(s.start))
    case AtStart(_) => s.(coordinator := ToDone)
    case ToDone => s.(coordinator := AtDone(s.done.generation), done := Arrive(s.done))
    case AtDone(_) => s.(coordinator := Stopping)
    case Stopping => s.(coordinator := JoiningOwner, ownerDone := true)
    case JoiningOwner => s.(coordinator := JoiningProducers(0))
    case JoiningProducers(joined) =>
      if joined < |s.producers| then
        s.(coordinator := JoiningProducers(joined + 1), collected := s.collected + |s.producers[joined].slice|)
      else
        s.(coordinator := Reclaiming)
    case Reclaiming =>
      if Threaded(c) then
        s.(coordinator := Ended, registry := Claim(s.registry, choice), lease := Some(choice))
      else
        s.(coordinator := Ended)
  }

  // ---- The owner thread ----

  predicate OwnerEnabled(c: Config, s: State, given: Option<nat>) {
    match s.owner
    case Absent => false
    case OwnerClaiming => given.Some? && MayClaim(s.registry, given.value)
    case OwnerAllocating => |s.ptrs| < c.burst ==> |s.ptrs| < c.supply && given.Some? && given.value !in s.blocks
    case Sending => s.lease.Some?
    case OwnerAtStart(generation) => s.start.generation != generation
    case Requesting => given.Some? ==> given.value !in s.blocks
    case Dropping => s.lease.Some?
    case OwnerFinished => false
    case _ => true
  }

  function OwnerNext(c: Config, s: State, given: Option<nat>): State
    requires Valid(c) && OwnerEnabled(c, s, given)
  {
    match s.owner
    case OwnerClaiming =>
      s.(owner := OwnerAllocating, registry := Claim(s.registry, given.value), lease := given)
    case OwnerAllocating =>
      if |s.ptrs| < c.burst then
        s.(ptrs := s.ptrs + [given.value], blocks := s.blocks + {given.value})
      else
        s.(owner := Sending)
    case Sending => s.(owner := OwnerToStart, channel := Some((s.lease.value, s.ptrs)))
    case OwnerToStart => s.(owner := OwnerAtStart(s.start.generation), start := Arrive(s.start))
    case OwnerAtStart(_) => s.(owner := Checking)
    case Checking => s.(owner := if s.ownerDone then Draining else Requesting)
    case Requesting =>
      if given.Some? then
        s.(owner := Capping, batch := s.batch + [given.value], blocks := s.blocks + {given.value})
      else
        s.(owner := Capping)
    case Capping => s.(owner := if |s.batch| >= BATCH_CAP then Flushing else Checking)
    case Flushing =>
      if s.batch == [] then s.(owner := Checking)
      else s.(batch := s.batch[1..], blocks := s.blocks - {s.batch[0]})
    case Draining =>
      if s.batch == [] then s.(owner := Dropping)
      else s.(batch := s.batch[1..], blocks := s.blocks - {s.batch[0]})
    case Dropping =>
      s.(owner := OwnerFinished, lease := None, registry := Drop(s.registry, s.lease.value))
  }

  // ---- The producers ----

  predicate ProducerEnabled(s: State, k: nat, choice: nat) {
    k < |s.producers|
    && match s.producers[k].pc
       case Claiming => MayClaim(s.registry, choice)
       case ProducerAtStart(generation) => s.start.generation != generation
       case ProducerAtDone(generation) => s.done.generation != generation
       case Finished => false
       case _ => true
  }

  function ProducerNext(s: State, k: nat, choice: nat): State
    requires ProducerEnabled(s, k, choice)
  {
    var p := s.producers[k];
    match p.pc
    case Claiming =>
      s.(producers := s.producers[k := p.(pc := ProducerToStart, slot := choice)],
         registry := Claim(s.registry, choice))
    case ProducerToStart =>
      s.(producers := s.producers[k := p.(pc := ProducerAtStart(s.start.generation))], start := Arrive(s.start))
    case ProducerAtStart(_) => s.(producers := s.producers[k := p.(pc := Freeing(0))])
    case Freeing(next) =>
      if next < |p.slice| then
        s.(producers := s.producers[k := p.(pc := Freeing(next + 1))],
           blocks := s.blocks - {p.slice[next]}, frees := s.frees + multiset{p.slice[next]})
      else
        s.(producers := s.producers[k := p.(pc := ProducerToDone)])
    case ProducerToDone =>
      s.(producers := s.producers[k := p.(pc := ProducerAtDone(s.done.generation))], done := Arrive(s.done))
    case ProducerAtDone(_) => s.(producers := s.producers[k := p.(pc := Finished)])
  }

  // ---- Steps and runs ----

  predicate Enabled(c: Config, s: State, step: Step) {
    match step
    case CoordinatorStep(choice) => CoordinatorEnabled(c, s, choice)
    case OwnerStep(given) => OwnerEnabled(c, s, given)
    case ProducerStep(k, choice) => ProducerEnabled(s, k, choice)
  }

  function Next(c: Config, s: State, step: Step): State
    requires Valid(c) && Enabled(c, s, step)
  {
    match step
    case CoordinatorStep(choice) => CoordinatorNext(c, s, choice)
    case OwnerStep(given) => OwnerNext(c, s, given)
    case ProducerStep(k, choice) => ProducerNext(s, k, choice)
  }

  /** The owner going round its loop while nobody has told it to stop. */
  predicate Spins(s: State, step: Step) {
    step.OwnerStep? && !s.ownerDone
    && (s.owner == Checking || s.owner == Requesting || s.owner == Capping || s.owner == Flushing)
  }

  predicate Legal(c: Config, s: State, steps: seq<Step>)
    requires Valid(c)
    decreases |steps|
  {
    steps == [] || (Enabled(c, s, steps[0]) && Legal(c, Next(c, s, steps[0]), steps[1..]))
  }

  function After(c: Config, s: State, steps: seq<Step>): State
    requires Valid(c) && Legal(c, s, steps)
    decreases |steps|
  {
    if steps == [] then s else After(c, Next(c, s, steps[0]), steps[1..])
  }

  ghost predicate Reachable(c: Config, s: State)
    requires Valid(c)
  {
    exists s0, steps :: Initial(c, s0) && Legal(c, s0, steps) && After(c, s0, steps) == s
  }
}
