/** The active or slow owner's loop: allocate, keep, free the lot at the cap; and free what is left at the end. */
module FanInOwner {
  import opened FreeSets
  import opened Chunks
  import opened HeapSlots
  import opened FanIn
  import opened FanInInvariant
  import opened FanInMemory
  import opened FanInSteps
  import opened FanInLaws
  import opened FanInProgress

  /** A stretch of the owner's own steps. */
  predicate OwnersOnly(steps: seq<Step>) {
    forall i | 0 <= i < |steps| :: steps[i].OwnerStep?
  }

  /** The owner alone leads from `s` to `t`. */
  ghost predicate OwnerLeads(c: Config, s: State, steps: seq<Step>, t: State)
    requires Valid(c)
  {
    OwnersOnly(steps) && Legal(c, s, steps) && After(c, s, steps) == t
  }

  lemma LeadsOn(c: Config, s: State, x: seq<Step>, t: State, y: seq<Step>, u: State)
    requires Valid(c) && OwnerLeads(c, s, x, t) && OwnerLeads(c, t, y, u)
    ensures OwnerLeads(c, s, x + y, u)
  {
    hide Legal, After;
    RunOn(c, s, x, y);
  }

  lemma OneStep(c: Config, s: State, given: Option<nat>)
    requires Valid(c) && OwnerEnabled(c, s, given)
    ensures OwnerLeads(c, s, [OwnerStep(given)], OwnerNext(c, s, given))
  {
    hide OwnerNext, OwnerEnabled;
    var t := OwnerNext(c, s, given);
    assert Legal(c, t, []) && After(c, t, []) == t;
    assert Next(c, s, OwnerStep(given)) == t && [OwnerStep(given)][1..] == [];
  }

  /** A full batch, or what is left at the end, is freed block by block. */
  lemma {:induction false} FreesBatch(c: Config, s: State) returns (steps: seq<Step>)
    requires Valid(c) && (s.owner == Flushing || s.owner == Draining)
    ensures OwnerLeads(c, s, steps, s.(batch := [], blocks := s.blocks - Elements(s.batch)))
    decreases |s.batch|
  {
    if s.batch == [] {
      steps := [];
      assert s.blocks - Elements([]) == s.blocks;
    } else {
      var t := OwnerNext(c, s, None);
      OneStep(c, s, None);
      var rest := FreesBatch(c, t);
      steps := [OwnerStep(None)] + rest;
      assert Elements(s.batch) == {s.batch[0]} + Elements(s.batch[1..]) by {
        ElementsOfCons(s.batch[0], s.batch[1..]);
        assert [s.batch[0]] + s.batch[1..] == s.batch;
      }
      assert t.blocks - Elements(t.batch) == s.blocks - Elements(s.batch);
      LeadsOn(c, s, [OwnerStep(None)], t, rest, s.(batch := [], blocks := s.blocks - Elements(s.batch)));
    }
  }

  lemma FlushesThrough(c: Config, s: State) returns (steps: seq<Step>, t: State)
    requires Valid(c) && s.owner == Flushing
    ensures OwnerLeads(c, s, steps, t)
    ensures t == s.(owner := Checking, batch := [], blocks := s.blocks - Elements(s.batch))
  {
    var frees := FreesBatch(c, s);
    var u := s.(batch := [], blocks := s.blocks - Elements(s.batch));
    OneStep(c, u, None);
    t := OwnerNext(c, u, None);
    LeadsOn(c, s, frees, u, [OwnerStep(None)], t);
    steps := frees + [OwnerStep(None)];
  }

  /** The head of the owner's loop, with the stop flag down. */
  predicate AtHead(c: Config, s: State) {
    Threaded(c) && s.owner == Checking && !s.ownerDone
  }

  /** What one round of the loop makes of the batch and of the live blocks when the allocator gives `x`. */
  function Kept(s: State, x: nat): State {
    if |s.batch| + 1 < 4096 then s.(batch := s.batch + [x], blocks := s.blocks + {x})
    else s.(batch := [], blocks := s.blocks - Elements(s.batch))
  }

  /** One round of the loop keeps the block it is given, or frees the whole batch when that makes it full. */
  lemma LoopKeeps(c: Config, s: State, x: nat) returns (steps: seq<Step>)
    requires Valid(c) && Inv(c, s) && AtHead(c, s) && x !in s.blocks
    ensures OwnerLeads(c, s, steps, Kept(s, x))
  {
    steps := ThreeSteps(c, s, Some(x));
    var s2 := s.(owner := Capping, batch := s.batch + [x], blocks := s.blocks + {x});
    if |s2.batch| >= BATCH_CAP {
      var s3 := s2.(owner := Flushing);
      var rest, s4 := FlushesThrough(c, s3);
      LeadsOn(c, s, steps, s3, rest, s4);
      steps := steps + rest;
      ElementsOfConcat(s.batch, [x]);
      assert Elements([x]) == {x};
      assert s.blocks + {x} - (Elements(s.batch) + {x}) == s.blocks - Elements(s.batch);
    }
  }

  /** From the head: look at the flag, ask the allocator, look at the cap. */
  lemma ThreeSteps(c: Config, s: State, given: Option<nat>) returns (steps: seq<Step>)
    requires Valid(c) && AtHead(c, s) && (given.Some? ==> given.value !in s.blocks)
    ensures |steps| == 3
    ensures var s2 := if given.None? then s
                      else s.(batch := s.batch + [given.value], blocks := s.blocks + {given.value});
      OwnerLeads(c, s, steps, s2.(owner := if |s2.batch| >= BATCH_CAP then Flushing else Checking))
  {
    hide OwnerLeads, MayClaim, Claim, Drop, Arrive;
    var s1 := OwnerNext(c, s, None);
    var s2 := OwnerNext(c, s1, given);
    OneStep(c, s, None);
    OneStep(c, s1, given);
    OneStep(c, s2, None);
    LeadsOn(c, s, [OwnerStep(None)], s1, [OwnerStep(given)], s2);
    LeadsOn(c, s, [OwnerStep(None)] + [OwnerStep(given)], s2, [OwnerStep(None)], OwnerNext(c, s2, None));
    steps := [OwnerStep(None)] + [OwnerStep(given)] + [OwnerStep(None)];
  }

  /** A round in which the allocator gives nothing changes nothing. */
  lemma LoopWithout(c: Config, s: State) returns (steps: seq<Step>)
    requires Valid(c) && Inv(c, s) && AtHead(c, s)
    ensures OwnerLeads(c, s, steps, s) && |steps| == 3
  {
    assert |s.batch| < BATCH_CAP;
    steps := ThreeSteps(c, s, None);
  }

  /** Once told to stop, the owner at the head of its loop frees all it has, drops its lease and ends. */
  lemma LoopEnds(c: Config, s: State) returns (steps: seq<Step>)
    requires Valid(c) && Inv(c, s) && Threaded(c) && s.owner == Checking && s.ownerDone
    ensures s.lease.Some?
    ensures OwnerLeads(c, s, steps, s.(owner := OwnerFinished, batch := [], blocks := s.blocks - Elements(s.batch),
                                       lease := None, registry := Drop(s.registry, s.lease.value)))
  {
    assert s.lease.Some?;
    hide Inv, OwnerLeads, Elements;
    var s1 := s.(owner := Draining);
    OneStep(c, s, None);
    var frees := FreesBatch(c, s1);
    var s2 := s1.(batch := [], blocks := s.blocks - Elements(s.batch));
    LeadsOn(c, s, [OwnerStep(None)], s1, frees, s2);
    var last := Leaves(c, s2);
    steps := [OwnerStep(None)] + frees + last;
    LeadsOn(c, s, [OwnerStep(None)] + frees, s2, last,
            s2.(owner := OwnerFinished, lease := None, registry := Drop(s.registry, s.lease.value)));
  }

  /** With nothing left to free: drop the lease and end. */
  lemma Leaves(c: Config, s: State) returns (steps: seq<Step>)
    requires Valid(c) && s.owner == Draining && s.batch == [] && s.lease.Some?
    ensures OwnerLeads(c, s, steps,
                       s.(owner := OwnerFinished, lease := None, registry := Drop(s.registry, s.lease.value)))
  {
    hide OwnerLeads, Drop, Claim, MayClaim, Arrive;
    var s1 := s.(owner := Dropping);
    OneStep(c, s, None);
    OneStep(c, s1, None);
    steps := [OwnerStep(None)] + [OwnerStep(None)];
    LeadsOn(c, s, [OwnerStep(None)], s1, [OwnerStep(None)], OwnerNext(c, s1, None));
  }

  /** While the stop flag is down and the start barrier open, the owner alone can get to the head of its loop. */
  lemma ComesRound(c: Config, s: State) returns (steps: seq<Step>, t: State)
    requires Valid(c) && Inv(c, s) && Threaded(c) && s.start.generation == 1 && !s.ownerDone
    ensures OwnerLeads(c, s, steps, t) && AtHead(c, t)
    ensures t == s.(owner := Checking, batch := t.batch, blocks := t.blocks)
  {
    OpenMeansAllArrived(c, s);
    if s.owner == Checking {
      steps, t := [], s;
    } else if s.owner == Flushing {
      steps, t := FlushesThrough(c, s);
    } else {
      t := OwnerNext(c, s, None);
      OneStep(c, s, None);
      steps := [OwnerStep(None)];
      if s.owner == Requesting {
        OneStep(c, t, None);
        LeadsOn(c, s, steps, t, [OwnerStep(None)], t.(owner := Checking));
        steps, t := steps + [OwnerStep(None)], t.(owner := Checking);
      } else if t.owner == Flushing {
        var rest, u := FlushesThrough(c, t);
        LeadsOn(c, s, steps, t, rest, u);
        steps, t := steps + rest, u;
      }
    }
  }

  /** How many more rounds until the batch holds `n` blocks. */
  function RoundsTo(have: nat, n: nat): nat {
    if have <= n then n - have else if have < BATCH_CAP then n + BATCH_CAP - have else n
  }

  /** From the head of the loop, the owner alone can bring its batch to any length below the cap. */
  lemma {:induction false} Fills(c: Config, s: State, n: nat) returns (steps: seq<Step>, t: State)
    requires Valid(c) && Inv(c, s) && AtHead(c, s) && n < BATCH_CAP
    ensures OwnerLeads(c, s, steps, t) && AtHead(c, t) && |t.batch| == n
    ensures t == s.(batch := t.batch, blocks := t.blocks)
    decreases RoundsTo(|s.batch|, n)
  {
    hide Inv, Next, Enabled, Elements;
    BelowCap(c, s);
    if |s.batch| == n {
      steps, t := [], s;
    } else {
      var x := Above(s.blocks);
      assert x !in s.blocks;
      var once := LoopKeeps(c, s, x);
      var u := Kept(s, x);
      RunKeepsInv(c, s, once);
      var rest;
      rest, t := Fills(c, u, n);
      LeadsOn(c, s, once, u, rest, t);
      steps := once + rest;
    }
  }

  lemma BelowCap(c: Config, s: State)
    requires Valid(c) && Inv(c, s) && AtHead(c, s)
    ensures |s.batch| < BATCH_CAP
  {
  }

  /** Every granted threaded cell has a run into the burst with `n` blocks in the owner's batch. */
  lemma BatchIsReached(c: Config, n: nat) returns (s: State)
    requires Valid(c) && Threaded(c) && Granted(c) && c.room <= MAX_HEAPS && n < BATCH_CAP
    ensures Reachable(c, s) && InBurst(s) && AtHead(c, s) && |s.batch| == n
    ensures Distinct(s.batch) && Elements(s.batch) <= s.blocks
  {
    var s0 := BurstIsReached(c);
    ReachableInv(c, s0);
    StillRunning(c, s0);
    var toHead, s1 := ComesRound(c, s0);
    RunKeepsInv(c, s0, toHead);
    var fill;
    fill, s := Fills(c, s1, n);
    RunKeepsInv(c, s1, fill);
    hide Inv, Reachable;
    LeadsOn(c, s0, toHead, s1, fill, s);
    StaysReachable(c, s0, toHead + fill);
    BatchIsLive(c, s);
  }

  lemma StillRunning(c: Config, s: State)
    requires Valid(c) && Inv(c, s) && InBurst(s)
    ensures !s.ownerDone && s.start.generation == 1
  {
  }

  lemma BatchIsLive(c: Config, s: State)
    requires Valid(c) && Inv(c, s)
    ensures Distinct(s.batch) && Elements(s.batch) <= s.blocks
  {
  }

  lemma StaysReachable(c: Config, s: State, steps: seq<Step>)
    requires Valid(c) && Reachable(c, s) && Legal(c, s, steps)
    ensures Reachable(c, After(c, s, steps))
  {
    hide Next, Enabled, Initial;
    var s0, before :| Initial(c, s0) && Legal(c, s0, before) && After(c, s0, before) == s;
    RunOn(c, s0, before, steps);
  }

  lemma {:induction false} RunOn(c: Config, s: State, x: seq<Step>, y: seq<Step>)
    requires Valid(c) && Legal(c, s, x) && Legal(c, After(c, s, x), y)
    ensures Legal(c, s, x + y) && After(c, s, x + y) == After(c, After(c, s, x), y)
    decreases |x|
  {
    hide Next, Enabled;
    if x == [] {
      assert x + y == y;
    } else {
      RunOn(c, Next(c, s, x[0]), x[1..], y);
      assert (x + y)[1..] == x[1..] + y;
    }
  }
}
