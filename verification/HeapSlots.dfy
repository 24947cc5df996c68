/**
 * The heap-slot registry as the fan-in burst sees it: a slot is LIVE while a lease holds it, and a
 * claim looks first at the reuse hint, then at the spilled free slots, then mints a new index.
 */
module HeapSlots {
  import opened FreeSets

  /** The registry's fixed capacity. */
  const MAX_HEAPS: nat := 4096

  datatype Registry = Registry(live: set<nat>, hint: Option<nat>, spilled: set<nat>, count: nat)

  /** Every minted slot is live, spilled or the hint, and only one of them. */
  ghost predicate WellFormed(r: Registry) {
    r.count <= MAX_HEAPS
    && (forall x: nat | x < r.count :: x in r.live || x in r.spilled || r.hint == Some(x))
    && (forall x | x in r.live :: x < r.count && x !in r.spilled)
    && (forall x | x in r.spilled :: x < r.count)
    && (r.hint.Some? ==> r.hint.value < r.count && r.hint.value !in r.live && r.hint.value !in r.spilled)
  }

  /**
    * The slots that a claim may return now; none when the registry is exhausted. Only the choice within the
    * spilled set is left open.
    */
  predicate MayClaim(r: Registry, slot: nat) {
    if r.hint.Some? then slot == r.hint.value
    else if r.spilled != {} then slot in r.spilled
    else slot == r.count && r.count < MAX_HEAPS
  }

  function Claim(r: Registry, slot: nat): Registry
    requires MayClaim(r, slot)
  {
    if r.hint.Some? then
      r.(live := r.live + {slot}, hint := None)
    else if r.spilled != {} then
      r.(live := r.live + {slot}, spilled := r.spilled - {slot})
    else
      r.(live := r.live + {slot}, count := r.count + 1)
  }

  /** Dropping a lease frees the slot and swaps it into the hint; the old hint spills. */
  function Drop(r: Registry, slot: nat): Registry {
    r.(live := r.live - {slot}, hint := Some(slot),
       spilled := r.spilled + (if r.hint.Some? then {r.hint.value} else {}))
  }

  /** How many claims can still succeed. */
  function Available(r: Registry): int {
    |r.spilled| + (if r.hint.Some? then 1 else 0) + MAX_HEAPS - r.count
  }

  /**
    * A claim can succeed exactly while a slot is available. When none is, every slot up to the capacity is
    * live: a scan of the whole range would not find one either.
    */
  lemma ClaimableIff(r: Registry)
    requires WellFormed(r)
    ensures (exists slot :: MayClaim(r, slot)) <==> Available(r) > 0
    ensures Available(r) == 0 <==> forall x: nat | x < 4096 :: x in r.live
  {
    if Available(r) == 0 {
      assert |r.spilled| == 0 && r.spilled == {} && r.count == MAX_HEAPS;
    } else if r.count < MAX_HEAPS {
      assert r.count !in r.live;
    }
    if r.hint.Some? {
      assert MayClaim(r, r.hint.value);
    } else if r.spilled != {} {
      var slot :| slot in r.spilled;
      assert MayClaim(r, slot);
    } else if r.count < MAX_HEAPS {
      assert MayClaim(r, r.count);
    }
  }

  /** Each claim uses up one slot, and each drop gives one back. */
  lemma ClaimTakesOne(r: Registry, slot: nat)
    requires WellFormed(r) && MayClaim(r, slot)
    ensures Available(Claim(r, slot)) == Available(r) - 1
  {
  }

  lemma DropGivesOne(r: Registry, slot: nat)
    requires WellFormed(r) && slot in r.live
    ensures Available(Drop(r, slot)) == Available(r) + 1
  {
  }

  lemma DropFrees(r: Registry, slot: nat)
    requires WellFormed(r) && slot in r.live
    ensures WellFormed(Drop(r, slot)) && Drop(r, slot).live == r.live - {slot}
  {
  }

  /** A claim never returns a slot that some lease still holds. */
  lemma ClaimIsExclusive(r: Registry, slot: nat)
    requires WellFormed(r) && MayClaim(r, slot)
    ensures slot !in r.live && WellFormed(Claim(r, slot)) && Claim(r, slot).live == r.live + {slot}
  {
  }

  /** A claim mints a new slot only when all the minted ones are live, and otherwise reuses one of them. */
  lemma MintsIffAllLive(r: Registry, slot: nat)
    requires WellFormed(r) && MayClaim(r, slot)
    ensures slot == r.count || (slot < r.count && slot !in r.live)
    ensures slot == r.count <==> forall x: nat | x < r.count :: x in r.live
    ensures Claim(r, slot).count == if slot == r.count then r.count + 1 else r.count
  {
    if r.spilled != {} {
      var x :| x in r.spilled;
      assert x < r.count && x !in r.live;
    }
  }

  /** Drop, then claim: the same slot comes back, and the live slots are as they were. */
  lemma DropThenClaim(r: Registry, slot: nat, next: nat)
    requires WellFormed(r) && slot in r.live && MayClaim(Drop(r, slot), next)
    ensures WellFormed(Drop(r, slot)) && next == slot
    ensures Claim(Drop(r, slot), next).live == r.live
  {
  }
}
