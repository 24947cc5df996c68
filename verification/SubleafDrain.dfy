/** Pops and drains of candidate B3 on every well-formed table, where links need not be exact. */
module SubleafDrain {
  import opened Words
  import opened Bitmaps
  import opened FreeSets
  import opened SubleafTable
  import opened SubleafLaws

  /** The sub-leaves in the mask of class `c`. */
  function Links(t: Table, c: nat): set<nat>
    requires Shape(t) && c < 49
  {
    set sl: nat | sl < 1024 && Linked(t, c, sl)
  }

  /** The free slots of the sub-leaves linked to class `c`: those that its pops can reach. */
  function Within(t: Table, c: nat): set<nat>
    requires Shape(t) && c < 49
  {
    set s: nat | s < 262144 && Has(t.occ, s) && Linked(t, c, s / 256)
  }

  /** The empty sub-leaves linked to class `c`. */
  function Stale(t: Table, c: nat): set<nat>
    requires Shape(t) && c < 49
  {
    set sl: nat | sl < 1024 && Linked(t, c, sl) && t.hdr[sl].wordsMask == 0
  }

  /** The links name every sub-leaf with slots, in the class it is bound to; other links are to empty ones. */
  predicate LinksSuffice(t: Table)
    requires Shape(t)
  {
    forall c: nat, sl: nat | c < 49 && sl < 1024 && t.hdr[sl].wordsMask != 0 ::
      Linked(t, c, sl) <==> t.hdr[sl].bound == c
  }

  /** The links of the other classes are as they were. */
  predicate OthersKept(t: Table, t': Table, c: nat)
    requires Shape(t) && Shape(t')
  {
    forall d: nat, x: nat | d < 49 && x < 1024 && d != c :: Linked(t', d, x) <==> Linked(t, d, x)
  }

  // ---- One pop ----

  /** Storing the rest of a word takes a link away only when the sub-leaf has no word left. */
  lemma StoreRestLinks(t: Table, c: nat, sl: nat, w: nat, rest: Word)
    requires WellFormed(t) && c < 49 && sl < 1024 && w < 4 && t.occ[4 * sl + w] != 0
    ensures var t' := StoreRest(t, c, sl, w, rest);
      && WellFormed(t')
      && t'.occ == t.occ[4 * sl + w := rest] && Bindings(t') == Bindings(t)
      && t'.cursor == t.cursor && t'.spanRetires == t.spanRetires
      && (forall x: nat | x < 1024 && x != sl :: t'.hdr[x] == t.hdr[x])
      && forall d: nat, x: nat | d < 49 && x < 1024 ::
           Linked(t', d, x) <==> Linked(t, d, x) && !(d == c && x == sl && t'.hdr[sl].wordsMask == 0)
  {
    var t' := StoreRest(t, c, sl, w, rest);
    assert t.hdr[sl].wordsMask != 0 by {
      assert Bit(t.hdr[sl].wordsMask, w);
      ZeroHasNoBits(w);
    }
    StoreRestMasks(t, c, sl, w, rest);
    hide AndNot, Mask, MasksExact, Bit;
    var t2 := t.(occ := t'.occ, hdr := t'.hdr);
    assert forall d: nat, x: nat | d < 49 && x < 1024 :: Linked(t2, d, x) <==> Linked(t, d, x);
    if rest == 0 && t'.hdr[sl].wordsMask == 0 {
      UnlinkMasks(t2, c, sl);
    }
  }

  /** The lowest word of the lowest linked sub-leaf holds the smallest slot in reach. */
  lemma LowestWithin(t: Table, c: nat, sl: nat)
    requires WellFormed(t) && c < 49 && sl < 1024 && Linked(t, c, sl) && t.hdr[sl].wordsMask != 0
    requires forall x: nat | x < 1024 && Linked(t, c, x) :: sl <= x
    ensures var w := TrailingZeros(t.hdr[sl].wordsMask);
      && w < 4 && t.occ[4 * sl + w] != 0
      && Within(t, c) != {}
      && Min(Within(t, c)) == 256 * sl + 64 * w + TrailingZeros(t.occ[4 * sl + w])
      && Min(Within(t, c)) / 256 == sl && Min(Within(t, c)) / 16384 == sl / 64
  {
    LowestWord(t, sl);
    var w := TrailingZeros(t.hdr[sl].wordsMask);
    var m := 256 * sl + 64 * w + TrailingZeros(t.occ[4 * sl + w]);
    SlotsOfClearLowest(t.occ, 4 * sl + w);
    assert m in Within(t, c);
    forall s: nat | s in Within(t, c)
      ensures m <= s
    {
      assert sl <= s / 256;
      if s / 256 == sl {
        ZeroHasNoBits(s % 64);
        assert Bit(t.hdr[sl].wordsMask, s / 64 - 4 * sl);
      }
    }
    MinIs(Within(t, c), m);
  }

  /** One slot leaves its linked sub-leaf, which is unlinked if that was its last. */
  lemma WithinAfterRemoval(t: Table, t': Table, c: nat, sl: nat, m: nat)
    requires Shape(t) && WellFormed(t') && c < 49 && sl < 1024 && m in Within(t, c)
    requires Slots(t'.occ) == Slots(t.occ) - {m}
    requires forall d: nat, x: nat | d < 49 && x < 1024 ::
      Linked(t', d, x) <==> Linked(t, d, x) && !(d == c && x == sl && t'.hdr[sl].wordsMask == 0)
    ensures Within(t', c) == Within(t, c) - {m}
  {
    EmptySubleaf(t', sl);
    hide Linked, MasksExact, CursorsLow;
    forall s: nat | s < 262144
      ensures Has(t'.occ, s) <==> Has(t.occ, s) && s != m
    {
      InSlots(t.occ, s);
      InSlots(t'.occ, s);
    }
  }

  /** A class with no link has nothing in reach. */
  lemma NothingWithin(t: Table, c: nat)
    requires Shape(t) && c < 49 && Links(t, c) == {}
    ensures Within(t, c) == {} && Stale(t, c) == {}
  {
    hide Linked;
    assert forall sl: nat | sl < 1024 :: !Linked(t, c, sl) by {
      assert forall sl: nat | sl < 1024 && Linked(t, c, sl) :: sl in Links(t, c);
    }
  }

  /** What one `pop` answers and leaves, for each of its three ways out. */
  lemma PopOutcome(t: Table, c: nat)
    requires WellFormed(t) && c < 49
    ensures var (t', r) := Pop(t, c);
      && WellFormed(t') && Bindings(t') == Bindings(t) && t'.spanRetires == t.spanRetires
      && OthersKept(t, t', c)
      && (Links(t, c) == {} ==> r == None && t' == t.(cursor := t.cursor[c := 16]))
      && (Links(t, c) != {} ==>
            var sl := Min(Links(t, c));
            && sl < 1024 && t'.cursor == t.cursor[c := sl / 64]
            && (r == None <==> t.hdr[sl].wordsMask == 0)
            && (r == None ==> t'.occ == t.occ && t'.hdr == t.hdr && Links(t', c) == Links(t, c) - {sl})
            && (r != None ==>
                  && Within(t, c) != {} && r == Some(Min(Within(t, c))) && r.value / 256 == sl
                  && Within(t', c) == Within(t, c) - {r.value}
                  && Slots(t'.occ) == Slots(t.occ) - {r.value}
                  && Stale(t', c) == Stale(t, c)))
  {
    hide Bit, TrailingZeros, MasksExact, CursorsLow, Linked, StoreRest, UnlinkSubleaf, Slots;
    FirstSubleafEffect(t, c);
    var (t1, found) := FirstSubleaf(t, c);
    SameLinks(t, t1);
    if found == None {
      assert Links(t, c) == {};
    } else {
      var sl := found.value;
      assert sl in Links(t, c);
      MinIs(Links(t, c), sl);
      if t.hdr[sl].wordsMask == 0 {
        UnlinkStale(t1, c, sl);
      } else {
        TakeLowestEffect(t, t1, c, sl);
      }
    }
  }

  /** Links are in the class mask alone. */
  lemma SameLinks(t: Table, u: Table)
    requires Shape(t) && Shape(u) && u.classMask == t.classMask
    ensures forall d: nat, x: nat | d < 49 && x < 1024 :: Linked(u, d, x) <==> Linked(t, d, x)
    ensures forall d: nat | d < 49 :: Links(u, d) == Links(t, d)
  {
    hide Bit;
  }

  lemma UnlinkStale(t: Table, c: nat, sl: nat)
    requires WellFormed(t) && c < 49 && sl < 1024
    ensures var t' := UnlinkSubleaf(t, c, sl);
      && WellFormed(t') && OthersKept(t, t', c)
      && t' == t.(classMask := t'.classMask) && Links(t', c) == Links(t, c) - {sl}
  {
    UnlinkMasks(t, c, sl);
    var t' := UnlinkSubleaf(t, c, sl);
    hide Linked, UnlinkSubleaf, MasksExact;
    assert MasksExact(t') by { SameMasks(t, t'); }
  }

  lemma TakeLowestEffect(t: Table, t1: Table, c: nat, sl: nat)
    requires WellFormed(t) && WellFormed(t1) && c < 49 && sl < 1024 && Linked(t, c, sl) && t.hdr[sl].wordsMask != 0
    requires forall x: nat | x < 1024 && Linked(t, c, x) :: sl <= x
    requires t1 == t.(cursor := t1.cursor)
    ensures var t' := TakeLowest(t1, c, sl);
      && WellFormed(t') && Bindings(t') == Bindings(t) && t'.spanRetires == t.spanRetires && t'.cursor == t1.cursor
      && OthersKept(t, t', c)
      && Within(t, c) != {} && Min(Within(t, c)) / 256 == sl
      && Within(t', c) == Within(t, c) - {Min(Within(t, c))}
      && Slots(t'.occ) == Slots(t.occ) - {Min(Within(t, c))}
      && Stale(t', c) == Stale(t, c)
    ensures var w := TrailingZeros(t.hdr[sl].wordsMask);
      w < 4 && Min(Within(t, c)) == 256 * sl + 64 * w + TrailingZeros(t.occ[4 * sl + w])
  {
    hide MasksExact, CursorsLow, Bit, TrailingZeros, StoreRest, ClearLowest, Linked, Slots;
    LowestWithin(t, c, sl);
    var w := TrailingZeros(t.hdr[sl].wordsMask);
    var rest := ClearLowest(t.occ[4 * sl + w]);
    var t' := StoreRest(t1, c, sl, w, rest);
    SlotsOfClearLowest(t.occ, 4 * sl + w);
    StoreRestLinks(t1, c, sl, w, rest);
    SameLinks(t, t1);
    WithinAfterRemoval(t, t', c, sl, Min(Within(t, c)));
  }

  // ---- Pops past stale links ----

  /** `pop`, and again for as long as it answers `None` while the class has a link. */
  function PopPast(t: Table, c: nat): (r: (Table, Option<nat>))
    requires WellFormed(t) && c < 49
    ensures WellFormed(r.0)
    decreases |Links(t, c)|
  {
    PopOutcome(t, c);
    var (t1, r) := Pop(t, c);
    if r == None && Links(t, c) != {} then PopPast(t1, c) else (t1, r)
  }

  /** How many of those pops answer `None` although the class has a link. */
  function Nones(t: Table, c: nat): nat
    requires WellFormed(t) && c < 49
    decreases |Links(t, c)|
  {
    PopOutcome(t, c);
    var (t1, r) := Pop(t, c);
    if r == None && Links(t, c) != {} then 1 + Nones(t1, c) else 0
  }

  /** `n` slots in a row, stopping when the class has no link left. */
  function TakeMany(t: Table, c: nat, n: nat): (Table, seq<nat>)
    requires WellFormed(t) && c < 49
    decreases n
  {
    if n == 0 then (t, [])
    else
      var (t1, r) := PopPast(t, c);
      if r == None then (t1, [])
      else
        var (t2, rest) := TakeMany(t1, c, n - 1);
        (t2, [r.value] + rest)
  }

  /** The stale links that slots taken in order up to `issued` leave when `n` were asked for. */
  function StaleAbove(stale: set<nat>, issued: seq<nat>, n: nat): set<nat> {
    if |issued| < n then {}
    else if n == 0 then stale
    else Over(stale, issued[|issued| - 1] / 256)
  }

  /** The sub-leaves above number `k`. */
  function Over(s: set<nat>, k: nat): set<nat> {
    set sl | sl in s && k < sl
  }

  /** The sub-leaves below number `k`. */
  function Under(s: set<nat>, k: nat): set<nat> {
    set sl | sl in s && sl < k
  }

  /** Removing an empty linked sub-leaf from the links changes nothing that can be reached. */
  lemma StaleUnlinked(t: Table, t1: Table, c: nat)
    requires WellFormed(t) && WellFormed(t1) && c < 49 && Links(t, c) != {} && t1.occ == t.occ && t1.hdr == t.hdr
    requires Min(Links(t, c)) < 1024 && t.hdr[Min(Links(t, c))].wordsMask == 0
    requires Links(t1, c) == Links(t, c) - {Min(Links(t, c))}
    ensures Within(t1, c) == Within(t, c)
    ensures Min(Links(t, c)) in Stale(t, c) && Stale(t1, c) == Stale(t, c) - {Min(Links(t, c))}
    ensures forall s | s in Within(t, c) :: Min(Links(t, c)) < s / 256
  {
    var sl := Min(Links(t, c));
    EmptySubleaf(t, sl);
    hide Linked, MasksExact, CursorsLow, Has;
    forall x: nat | x < 1024
      ensures Linked(t1, c, x) <==> Linked(t, c, x) && x != sl
      ensures Linked(t, c, x) ==> sl <= x
    {
      assert x in Links(t1, c) <==> Linked(t1, c, x);
      assert x in Links(t, c) <==> Linked(t, c, x);
    }
  }

  lemma LowestNotStale(t: Table, c: nat)
    requires Shape(t) && c < 49 && Links(t, c) != {}
    requires Min(Links(t, c)) < 1024 && t.hdr[Min(Links(t, c))].wordsMask != 0
    ensures forall x | x in Stale(t, c) :: Min(Links(t, c)) < x
  {
    forall x | x in Stale(t, c)
      ensures Min(Links(t, c)) < x
    {
      assert x in Links(t, c);
    }
  }

  lemma OneMoreBelow(a: set<nat>, x: nat, k: nat)
    requires x in a && x < k
    ensures |Under(a, k)| == 1 + |Under(a - {x}, k)| && Over(a, k) == Over(a - {x}, k)
  {
    assert Under(a, k) == Under(a - {x}, k) + {x};
  }

  /**
    * A pop past stale links answers the smallest slot in reach, and `None` exactly when there is none. On its
    * way it drops exactly the stale links below its answer, one for each `None`.
    */
  lemma {:induction false} PopPastEffect(t: Table, c: nat)
    requires WellFormed(t) && c < 49
    ensures var (t', r) := PopPast(t, c);
      && Bindings(t') == Bindings(t) && t'.spanRetires == t.spanRetires && OthersKept(t, t', c)
      && (Within(t, c) == {} ==>
            && r == None && t'.occ == t.occ && Links(t', c) == {} && Within(t', c) == {} && Stale(t', c) == {}
            && Nones(t, c) == |Stale(t, c)|)
      && (Within(t, c) != {} ==>
            var m := Min(Within(t, c));
            && r == Some(m)
            && Within(t', c) == Within(t, c) - {m} && Slots(t'.occ) == Slots(t.occ) - {m}
            && Stale(t', c) == Over(Stale(t, c), m / 256)
            && Nones(t, c) == |Under(Stale(t, c), m / 256)|)
    decreases |Links(t, c)|
  {
    hide MasksExact, CursorsLow, Pop, Slots, Linked, Within, Stale, Bindings;
    PopOutcome(t, c);
    var (t1, r) := Pop(t, c);
    if Links(t, c) == {} {
      SameLinks(t, t1);
      NothingWithin(t, c);
      NothingWithin(t1, c);
    } else {
      var sl := Min(Links(t, c));
      if r == None {
        StaleUnlinked(t, t1, c);
        PopPastEffect(t1, c);
        assert |Stale(t, c)| == 1 + |Stale(t1, c)|;
        if Within(t, c) != {} {
          OneMoreBelow(Stale(t, c), sl, Min(Within(t, c)) / 256);
        }
      } else {
        LowestNotStale(t, c);
      }
    }
  }

  // ---- Many ----

  /**
    * Slots taken one after another are the smallest in reach, in order, and only they leave. Of the stale
    * links those above the last slot stay; none stays when the class runs out.
    */
  lemma {:induction false} TakeManyEffect(t: Table, c: nat, n: nat)
    requires WellFormed(t) && c < 49
    ensures var (t', issued) := TakeMany(t, c, n);
      && WellFormed(t') && Bindings(t') == Bindings(t) && t'.spanRetires == t.spanRetires && OthersKept(t, t', c)
      && issued == Smallest(Within(t, c), n)
      && Within(t', c) == Within(t, c) - Elements(issued)
      && Slots(t'.occ) == Slots(t.occ) - Elements(issued)
      && Stale(t', c) == StaleAbove(Stale(t, c), issued, n)
    decreases n
  {
    NoElements();
    hide MasksExact, CursorsLow, Slots, Linked, Within, Stale, Bindings, StaleAbove, PopPast, Elements, OthersKept, Links;
    if n == 0 {
      NoneTaken(Stale(t, c));
      OthersKeptTrans(t, t, t, c);
    } else {
      PopPastEffect(t, c);
      var (t1, r) := PopPast(t, c);
      if r == None {
        RanOut(Stale(t, c), n);
        assert Slots(t.occ) - {} == Slots(t.occ);
      } else {
        var m := r.value;
        TakeManyEffect(t1, c, n - 1);
        var (t2, rest) := TakeMany(t1, c, n - 1);
        OthersKeptTrans(t, t1, t2, c);
        ElementsOfCons(m, rest);
        SmallestAfterMin(Within(t, c), n - 1);
        RemoveBoth(Within(t, c), m, Elements(rest));
        RemoveBoth(Slots(t.occ), m, Elements(rest));
        StaleAfterOneMore(Stale(t, c), m, rest, n);
      }
    }
  }

  lemma NoElements()
    ensures Elements([]) == {}
  {
  }

  lemma RemoveBoth(a: set<nat>, x: nat, b: set<nat>)
    ensures a - {x} - b == a - ({x} + b)
  {
  }

  lemma OthersKeptTrans(t: Table, t1: Table, t2: Table, c: nat)
    requires Shape(t) && Shape(t1) && Shape(t2) && c < 49
    ensures OthersKept(t, t, c)
    ensures OthersKept(t, t1, c) && OthersKept(t1, t2, c) ==> OthersKept(t, t2, c)
  {
    hide Linked;
  }

  lemma SmallestAfterMin(s: set<nat>, n: nat)
    requires s != {}
    ensures var rest := Smallest(s - {Min(s)}, n); |rest| <= n && forall i | 0 <= i < |rest| :: Min(s) <= rest[i]
  {
    SmallestAreSmallest(s - {Min(s)}, n);
  }

  lemma NoneTaken(stale: set<nat>)
    ensures StaleAbove(stale, [], 0) == stale
  {
  }

  lemma RanOut(stale: set<nat>, n: nat)
    requires n > 0
    ensures StaleAbove(stale, [], n) == {}
  {
  }

  lemma StaleAfterOneMore(stale: set<nat>, m: nat, rest: seq<nat>, n: nat)
    requires |rest| < n && forall i | 0 <= i < |rest| :: m <= rest[i]
    ensures StaleAbove(Over(stale, m / 256), rest, n - 1) == StaleAbove(stale, [m] + rest, n)
  {
    if rest != [] {
      assert m / 256 <= rest[|rest| - 1] / 256;
      assert ([m] + rest)[|rest|] == rest[|rest| - 1];
    }
  }

  /** The links suffice exactly when every class reaches its own slots and no others. */
  lemma SufficeIff(t: Table)
    requires WellFormed(t)
    ensures LinksSuffice(t) <==> forall c: nat | c < 49 :: Within(t, c) == Free(t, c)
  {
    hide LinksSuffice, Within, Free, MasksExact, CursorsLow;
    if LinksSuffice(t) {
      forall c: nat | c < 49
        ensures Within(t, c) == Free(t, c)
      {
        ReachesItsOwn(t, c);
      }
    } else {
      SomeOneElses(t);
    }
  }

  lemma ReachesItsOwn(t: Table, c: nat)
    requires WellFormed(t) && LinksSuffice(t) && c < 49
    ensures Within(t, c) == Free(t, c)
  {
    hide Linked, MasksExact, CursorsLow, Has;
    forall s: nat | s < 262144 && Has(t.occ, s)
      ensures t.hdr[s / 256].wordsMask != 0
    {
      EmptySubleaf(t, s / 256);
    }
  }

  lemma SomeOneElses(t: Table)
    requires WellFormed(t) && !LinksSuffice(t)
    ensures exists c: nat :: c < 49 && Within(t, c) != Free(t, c)
  {
    hide Linked, MasksExact, CursorsLow, Has;
    var c: nat, sl: nat :|
      c < 49 && sl < 1024 && t.hdr[sl].wordsMask != 0 && !(Linked(t, c, sl) <==> t.hdr[sl].bound == c);
    EmptySubleaf(t, sl);
    var s: nat :| 256 * sl <= s < 256 * sl + 256 && Has(t.occ, s);
    assert s in Within(t, c) <==> s !in Free(t, c);
  }

  /** The bookkeeping is exact when besides no link is stale. */
  lemma InvIff(t: Table)
    requires WellFormed(t)
    ensures Inv(t) <==> LinksSuffice(t) && forall c: nat | c < 49 :: Stale(t, c) == {}
  {
    hide Linked, MasksExact, CursorsLow;
    forall c: nat, sl: nat | c < 49 && sl < 1024
      ensures sl in Stale(t, c) <==> Linked(t, c, sl) && t.hdr[sl].wordsMask == 0
    {
    }
  }

  /**
    * A drain of a table whose links suffice issues the smallest free slots of its class, with stale links on
    * its way or not. It leaves links that suffice and the stale links above the last slot alone.
    */
  lemma DrainRepairs(t: Table, c: nat, n: nat)
    requires WellFormed(t) && LinksSuffice(t) && c < 49
    ensures var (t', issued) := TakeMany(t, c, n);
      && WellFormed(t') && LinksSuffice(t')
      && issued == Smallest(Free(t, c), n)
      && Free(t', c) == Free(t, c) - Elements(issued)
      && (forall d: nat | d < 49 && d != c :: Free(t', d) == Free(t, d) && Stale(t', d) == Stale(t, d))
      && Stale(t', c) == StaleAbove(Stale(t, c), issued, n)
  {
    TakeManyEffect(t, c, n);
    var (t', issued) := TakeMany(t, c, n);
    SufficeIff(t);
    SmallestAreSmallest(Free(t, c), n);
    hide TakeMany, MasksExact, CursorsLow, LinksSuffice, Smallest;
    forall x | x in Elements(issued)
      ensures x in Free(t, c)
    {
    }
    AfterRemoval(t, t', c, Elements(issued));
    forall d: nat | d < 49
      ensures Within(t', d) == Free(t', d)
    {
    }
    SufficeIff(t');
  }

  /** Slots that leave one class, with the links of the others kept. */
  lemma AfterRemoval(t: Table, t': Table, c: nat, gone: set<nat>)
    requires WellFormed(t) && WellFormed(t') && c < 49 && gone <= Free(t, c)
    requires Slots(t'.occ) == Slots(t.occ) - gone && Bindings(t') == Bindings(t) && OthersKept(t, t', c)
    requires forall d: nat | d < 49 :: Within(t, d) == Free(t, d)
    ensures Free(t', c) == Free(t, c) - gone
    ensures forall d: nat | d < 49 && d != c ::
      Free(t', d) == Free(t, d) && Within(t', d) == Within(t, d) && Stale(t', d) == Stale(t, d)
  {
    hide MasksExact, CursorsLow, Has, Linked;
    assert forall sl: nat | sl < 1024 :: t'.hdr[sl].bound == Bindings(t')[sl] && t.hdr[sl].bound == Bindings(t)[sl];
    forall s: nat | s < 262144
      ensures Has(t'.occ, s) <==> Has(t.occ, s) && s !in gone
    {
      InSlots(t.occ, s);
      InSlots(t'.occ, s);
    }
    hide Bindings, Slots;
    forall d: nat | d < 49 && d != c
      ensures Free(t', d) == Free(t, d) && Within(t', d) == Within(t, d) && Stale(t', d) == Stale(t, d)
    {
      assert Free(t', d) == Free(t, d);
      assert forall s | s in Within(t, d) :: s in Free(t, d) && s !in gone;
      forall sl: nat | sl < 1024 && Linked(t, d, sl)
        ensures t'.hdr[sl].wordsMask == 0 <==> t.hdr[sl].wordsMask == 0
      {
        SameEmptiness(t, t', d, sl);
      }
    }
  }

  lemma SameEmptiness(t: Table, t': Table, d: nat, sl: nat)
    requires WellFormed(t) && WellFormed(t') && d < 49 && sl < 1024 && Linked(t, d, sl)
    requires forall s: nat | s < 262144 && Has(t.occ, s) && Linked(t, d, s / 256) :: Has(t'.occ, s)
    requires forall s: nat | s < 262144 && Has(t'.occ, s) :: Has(t.occ, s)
    ensures t'.hdr[sl].wordsMask == 0 <==> t.hdr[sl].wordsMask == 0
  {
    hide MasksExact, CursorsLow, Has, Linked;
    EmptySubleaf(t, sl);
    EmptySubleaf(t', sl);
    assert forall s: nat | 256 * sl <= s < 256 * sl + 256 :: s / 256 == sl;
  }

  /** An empty merge into an empty sub-leaf adds at most that sub-leaf to the stale links of its class. */
  lemma EmptyMergeAddsStale(t: Table, sl: nat, src: seq<Word>)
    requires WellFormed(t) && sl < 1024 && |src| == 4 && !UnionNonEmpty(t, sl, src)
    ensures var t' := OrMergeRegion(t, sl, src); var c := t.hdr[sl].bound;
      && WellFormed(t') && (LinksSuffice(t) ==> LinksSuffice(t'))
      && Free(t', c) == Free(t, c)
      && Stale(t', c) == Stale(t, c) + {sl}
      && forall d: nat | d < 49 && d != c :: Stale(t', d) == Stale(t, d)
  {
    EmptyMergeEffect(t, sl, src);
    hide MasksExact, CursorsLow, Linked, OrMergeRegion, Free;
    var t' := OrMergeRegion(t, sl, src);
    assert forall x: nat | x < 1024 :: t'.hdr[x].bound == Bindings(t')[x] && t.hdr[x].bound == Bindings(t)[x];
  }

  /** Under exact bookkeeping no `None` is early: past stale links is one `pop`, and many are pops in a row. */
  lemma {:induction false} ManyArePops(t: Table, c: nat, n: nat)
    requires Inv(t) && c < 49
    ensures TakeMany(t, c, n) == PopMany(t, c, n)
    decreases n
  {
    hide MasksExact, LinksExact, CursorsLow, Free, Bindings, Pop, PopPast;
    if n > 0 {
      NeverPast(t, c);
      PopEffect(t, c);
      var (t1, r) := Pop(t, c);
      if r != None {
        ManyArePops(t1, c, n - 1);
      }
    }
  }

  lemma NeverPast(t: Table, c: nat)
    requires Inv(t) && c < 49
    ensures PopPast(t, c) == Pop(t, c)
  {
    InvIff(t);
    PopOutcome(t, c);
    hide MasksExact, CursorsLow, Linked, Pop;
    if Links(t, c) != {} {
      assert Min(Links(t, c)) !in Stale(t, c);
    }
  }

  // ---- A word at a time ----

  /** Up to `budget` of a word's slots, lowest first, and the bits left behind. */
  function DrainWord(word: Word, base: nat, budget: nat): (Word, seq<nat>)
    decreases budget
  {
    if word == 0 || budget == 0 then (word, [])
    else
      var (rest, got) := DrainWord(ClearLowest(word), base, budget - 1);
      (rest, [base + TrailingZeros(word)] + got)
  }

  /** The cursor already names the class's first sub-leaf, `sl`, and it is not empty. */
  predicate AtSubleaf(t: Table, c: nat, sl: nat)
    requires WellFormed(t) && c < 49
  {
    FirstSubleaf(t, c) == (t, Some(sl)) && sl < 1024 && t.hdr[sl].wordsMask != 0
  }

  /** `w` is the lowest non-zero word of sub-leaf `sl`. */
  predicate LowestWordIs(t: Table, sl: nat, w: nat)
    requires Shape(t) && sl < 1024
  {
    w == TrailingZeros(t.hdr[sl].wordsMask) && w < 4 && t.occ[4 * sl + w] != 0
  }

  /** Taking `n` slots from `t` issues `got` first and goes on from `t'`. */
  predicate Resumes(t: Table, c: nat, n: nat, t': Table, got: seq<nat>)
    requires WellFormed(t) && WellFormed(t') && c < 49
  {
    && |got| <= n
    && TakeMany(t, c, n) == (TakeMany(t', c, n - |got|).0, got + TakeMany(t', c, n - |got|).1)
  }

  /** In the middle of a drain: `n` slots are being taken from `t0`, and `got` have been, which leaves `t`. */
  predicate Draining(t0: Table, c: nat, n: nat, t: Table, got: seq<nat>) {
    WellFormed(t0) && WellFormed(t) && c < 49 && Resumes(t0, c, n, t, got)
  }

  lemma ResumesStart(t: Table, c: nat, n: nat)
    requires WellFormed(t) && c < 49
    ensures Resumes(t, c, n, t, [])
  {
    hide WellFormed, TakeMany;
    assert [] + TakeMany(t, c, n).1 == TakeMany(t, c, n).1;
  }

  lemma ResumesStep(t: Table, c: nat, n: nat, x: nat, next: Table, t': Table, got: seq<nat>)
    requires WellFormed(t) && WellFormed(next) && WellFormed(t') && c < 49 && n > 0
    requires PopPast(t, c) == (next, Some(x)) && Resumes(next, c, n - 1, t', got)
    ensures Resumes(t, c, n, t', [x] + got)
  {
    hide WellFormed, PopPast;
    var more := TakeMany(t', c, n - 1 - |got|).1;
    assert [x] + (got + more) == ([x] + got) + more;
  }

  lemma ResumesTrans(t: Table, c: nat, n: nat, u: Table, got: seq<nat>, v: Table, got': seq<nat>)
    requires WellFormed(t) && WellFormed(u) && WellFormed(v) && c < 49
    requires Resumes(t, c, n, u, got) && Resumes(u, c, n - |got|, v, got')
    ensures Resumes(t, c, n, v, got + got')
  {
    hide PopPast, WellFormed;
    var more := TakeMany(v, c, n - |got| - |got'|).1;
    assert got + (got' + more) == (got + got') + more;
  }

  /** At its sub-leaf, the class pops the lowest slot of the sub-leaf's lowest word. */
  lemma PopsLowest(t: Table, c: nat, sl: nat, w: nat)
    requires WellFormed(t) && c < 49 && AtSubleaf(t, c, sl) && LowestWordIs(t, sl, w)
    ensures var next := StoreRest(t, c, sl, w, ClearLowest(t.occ[4 * sl + w]));
      && WellFormed(next)
      && PopPast(t, c) == (next, Some(256 * sl + 64 * w + TrailingZeros(t.occ[4 * sl + w])))
  {
    hide MasksExact, CursorsLow, FirstSubleaf, StoreRest, Links;
    hide TrailingZeros, ClearLowest;
    StoreRestLinks(t, c, sl, w, ClearLowest(t.occ[4 * sl + w]));
  }

  /** Storing the rest of a word leaves the search where it was, unless the sub-leaf is empty now. */
  lemma StaysAtSubleaf(t: Table, c: nat, sl: nat, w: nat, rest: Word)
    requires WellFormed(t) && c < 49 && AtSubleaf(t, c, sl) && LowestWordIs(t, sl, w)
    ensures var t' := StoreRest(t, c, sl, w, rest);
      && WellFormed(t') && t'.occ[4 * sl + w] == rest
      && (t'.hdr[sl].wordsMask != 0 ==> AtSubleaf(t', c, sl))
      && (rest != 0 ==> AtSubleaf(t', c, sl) && LowestWordIs(t', sl, w))
  {
    StoreRestLinks(t, c, sl, w, rest);
    hide AndNot, Mask, MasksExact, CursorsLow;
  }

  lemma StoreRestTwice(t: Table, c: nat, sl: nat, w: nat, first: Word, second: Word)
    requires Shape(t) && c < 49 && sl < 1024 && w < 4 && first != 0
    ensures StoreRest(StoreRest(t, c, sl, w, first), c, sl, w, second) == StoreRest(t, c, sl, w, second)
  {
    hide UnlinkSubleaf;
    var k := 4 * sl + w;
    assert t.occ[k := first][k := second] == t.occ[k := second];
  }

  /** Leaving `rest` of word `w` is where taking `budget` slots goes on after `got`. */
  predicate LeavesOf(t: Table, c: nat, sl: nat, w: nat, budget: nat, rest: Word, got: seq<nat>)
    requires WellFormed(t) && c < 49 && sl < 1024 && w < 4
  {
    && |got| <= budget && (rest != 0 ==> |got| == budget)
    && WellFormed(StoreRest(t, c, sl, w, rest))
    && Resumes(t, c, budget, StoreRest(t, c, sl, w, rest), got)
  }

  /** Emptying a word in one go is popping its slots one at a time. */
  lemma {:induction false} DrainWordIsPops(t: Table, c: nat, sl: nat, w: nat, budget: nat)
    requires WellFormed(t) && c < 49 && sl < 1024 && AtSubleaf(t, c, sl) && LowestWordIs(t, sl, w) && budget > 0
    ensures var (rest, got) := DrainWord(t.occ[4 * sl + w], 256 * sl + 64 * w, budget);
      0 < |got| && LeavesOf(t, c, sl, w, budget, rest, got)
    decreases budget
  {
    hide TakeMany, MasksExact, CursorsLow, AtSubleaf, StoreRest, TrailingZeros, ClearLowest, LeavesOf;
    var base, word := 256 * sl + 64 * w, t.occ[4 * sl + w];
    var tail := ClearLowest(word);
    var (rest, got) := DrainWord(tail, base, budget - 1);
    assert DrainWord(word, base, budget) == (rest, [base + TrailingZeros(word)] + got);
    if tail != 0 && budget > 1 {
      hide DrainWord;
      StaysAtSubleaf(t, c, sl, w, tail);
      DrainWordIsPops(StoreRest(t, c, sl, w, tail), c, sl, w, budget - 1);
      OneMoreOf(t, c, sl, w, budget, rest, got);
    } else {
      assert rest == tail && [base + TrailingZeros(word)] + got == [base + TrailingZeros(word)];
      hide DrainWord;
      LastOf(t, c, sl, w, budget);
    }
  }

  lemma OneMoreOf(t: Table, c: nat, sl: nat, w: nat, budget: nat, rest: Word, got: seq<nat>)
    requires WellFormed(t) && c < 49 && sl < 1024 && AtSubleaf(t, c, sl) && LowestWordIs(t, sl, w) && budget > 0
    requires var next := StoreRest(t, c, sl, w, ClearLowest(t.occ[4 * sl + w]));
      WellFormed(next) && LeavesOf(next, c, sl, w, budget - 1, rest, got)
    requires ClearLowest(t.occ[4 * sl + w]) != 0
    ensures LeavesOf(t, c, sl, w, budget, rest, [256 * sl + 64 * w + TrailingZeros(t.occ[4 * sl + w])] + got)
  {
    hide TakeMany, PopPast, Resumes, MasksExact, CursorsLow, AtSubleaf, StoreRest, TrailingZeros, ClearLowest;
    PopsLowest(t, c, sl, w);
    var tail := ClearLowest(t.occ[4 * sl + w]);
    var next := StoreRest(t, c, sl, w, tail);
    StoreRestTwice(t, c, sl, w, tail, rest);
    ResumesStep(t, c, budget, 256 * sl + 64 * w + TrailingZeros(t.occ[4 * sl + w]), next,
                StoreRest(next, c, sl, w, rest), got);
  }

  lemma LastOf(t: Table, c: nat, sl: nat, w: nat, budget: nat)
    requires WellFormed(t) && c < 49 && sl < 1024 && AtSubleaf(t, c, sl) && LowestWordIs(t, sl, w) && budget > 0
    requires ClearLowest(t.occ[4 * sl + w]) == 0 || budget == 1
    ensures LeavesOf(t, c, sl, w, budget, ClearLowest(t.occ[4 * sl + w]),
      [256 * sl + 64 * w + TrailingZeros(t.occ[4 * sl + w])])
  {
    hide TakeMany, PopPast, Resumes, MasksExact, CursorsLow, AtSubleaf, StoreRest, TrailingZeros, ClearLowest;
    PopsLowest(t, c, sl, w);
    var word := t.occ[4 * sl + w];
    var x, next := 256 * sl + 64 * w + TrailingZeros(word), StoreRest(t, c, sl, w, ClearLowest(word));
    ResumesStart(next, c, budget - 1);
    ResumesStep(t, c, budget, x, next, next, []);
    assert [x] + [] == [x];
  }

  /** A drain begins. */
  lemma DrainStarts(t: Table, c: nat, n: nat)
    requires WellFormed(t) && c < 49
    ensures Draining(t, c, n, t, [])
  {
    ResumesStart(t, c, n);
  }

  /**
    * One look for the first sub-leaf: there is none and the drain is over, or its link is stale and goes, or it
    * is the one to empty.
    */
  lemma DrainFinds(t0: Table, c: nat, n: nat, t: Table, got: seq<nat>)
    requires Draining(t0, c, n, t, got) && |got| < n
    ensures c < 49 && Shape(t) && t.cursor[c] <= 16
    ensures var (t1, found) := FirstSubleaf(t, c);
      && (found == None ==> TakeMany(t0, c, n) == (t1, got))
      && (found.Some? ==>
            var sl := found.value;
            && sl < 1024
            && (t1.hdr[sl].wordsMask != 0 ==> Draining(t0, c, n, t1, got) && AtSubleaf(t1, c, sl))
            && (t1.hdr[sl].wordsMask == 0 ==>
                  var t2 := UnlinkSubleaf(t1, c, sl);
                  |Links(t2, c)| < |Links(t, c)| && Draining(t0, c, n, t2, got)))
  {
    FirstLook(t, c);
    hide MasksExact, CursorsLow, FirstSubleaf, Links, UnlinkSubleaf, PopPast;
    var (t1, found) := FirstSubleaf(t, c);
    if found == None {
      assert TakeMany(t, c, n - |got|) == (t1, []);
      assert got + [] == got;
    }
  }

  lemma FirstLook(t: Table, c: nat)
    requires WellFormed(t) && c < 49
    ensures var (t1, found) := FirstSubleaf(t, c);
      && WellFormed(t1)
      && (found == None ==> PopPast(t, c) == (t1, None))
      && (found.Some? ==>
            var sl := found.value;
            && sl < 1024
            && (t1.hdr[sl].wordsMask != 0 ==> AtSubleaf(t1, c, sl) && PopPast(t1, c) == PopPast(t, c))
            && (t1.hdr[sl].wordsMask == 0 ==>
                  var t2 := UnlinkSubleaf(t1, c, sl);
                  WellFormed(t2) && |Links(t2, c)| < |Links(t, c)| && PopPast(t2, c) == PopPast(t, c)))
  {
    FirstSubleafEffect(t, c);
    hide MasksExact, CursorsLow, UnlinkSubleaf, Bit, TrailingZeros;
    var (t1, found) := FirstSubleaf(t, c);
    if found == None {
      hide Linked;
      assert Links(t, c) == {};
    } else if t1.hdr[found.value].wordsMask != 0 {
      FoundAgain(t, c);
    } else {
      FoundStale(t, c);
    }
  }

  lemma FoundAgain(t: Table, c: nat)
    requires WellFormed(t) && c < 49 && FirstSubleaf(t, c).1.Some?
    requires var sl := FirstSubleaf(t, c).1.value; sl < 1024 && t.hdr[sl].wordsMask != 0
    ensures var (t1, found) := FirstSubleaf(t, c);
      WellFormed(t1) && AtSubleaf(t1, c, found.value) && PopPast(t1, c) == PopPast(t, c)
  {
    FirstSubleafEffect(t, c);
    hide MasksExact, CursorsLow, StoreRest, Links, Linked, Bit, TrailingZeros;
    var t1 := FirstSubleaf(t, c).0;
    assert t1.cursor[c := t1.cursor[c]] == t1.cursor;
    assert Pop(t1, c) == Pop(t, c);
  }

  lemma FoundStale(t: Table, c: nat)
    requires WellFormed(t) && c < 49 && FirstSubleaf(t, c).1.Some?
    requires var sl := FirstSubleaf(t, c).1.value; sl < 1024 && t.hdr[sl].wordsMask == 0
    ensures var (t1, found) := FirstSubleaf(t, c);
      && WellFormed(t1)
      && var t2 := UnlinkSubleaf(t1, c, found.value);
      WellFormed(t2) && |Links(t2, c)| < |Links(t, c)| && PopPast(t2, c) == PopPast(t, c)
  {
    FirstSubleafEffect(t, c);
    PopOutcome(t, c);
    hide MasksExact, CursorsLow, Linked, FirstSubleaf, UnlinkSubleaf, TakeLowest;
    assert FirstSubleaf(t, c).1.value in Links(t, c);
    assert Min(Links(t, c)) in Links(t, c);
  }

  lemma DrainingIsWellFormed(t0: Table, c: nat, n: nat, t: Table, got: seq<nat>)
    requires Draining(t0, c, n, t, got)
    ensures WellFormed(t) && |got| <= n
  {
  }

  lemma DrainGoesOn(t0: Table, c: nat, n: nat, t: Table, got: seq<nat>, t': Table, more: seq<nat>)
    requires Draining(t0, c, n, t, got) && |got| <= n && Draining(t, c, n - |got|, t', more)
    ensures Draining(t0, c, n, t', got + more)
  {
    ResumesTrans(t0, c, n, t, got, t', more);
  }

  lemma FirstWordInRange(t: Table, c: nat, sl: nat)
    requires WellFormed(t) && c < 49 && sl < 1024 && AtSubleaf(t, c, sl)
    ensures LowestWordIs(t, sl, TrailingZeros(t.hdr[sl].wordsMask))
  {
    LowestWord(t, sl);
  }

  /** One word emptied, by as many slots as were still wanted. */
  lemma DrainEmpties(t: Table, c: nat, n: nat, sl: nat, w: nat)
    requires WellFormed(t) && c < 49 && sl < 1024 && AtSubleaf(t, c, sl) && LowestWordIs(t, sl, w) && n > 0
    ensures var (rest, taken) := DrainWord(t.occ[4 * sl + w], 256 * sl + 64 * w, n);
      var t1 := StoreRest(t, c, sl, w, rest);
      && 0 < |taken| <= n && Draining(t, c, n, t1, taken)
      && (rest != 0 ==> |taken| == n)
      && (rest == 0 && t1.hdr[sl].wordsMask != 0 ==> AtSubleaf(t1, c, sl))
  {
    hide TakeMany, Resumes, MasksExact, CursorsLow, AtSubleaf, StoreRest, DrainWord, TrailingZeros;
    DrainWordIsPops(t, c, sl, w, n);
    StaysAtSubleaf(t, c, sl, w, DrainWord(t.occ[4 * sl + w], 256 * sl + 64 * w, n).0);
  }

  lemma DrainEnds(t0: Table, c: nat, n: nat, t: Table, got: seq<nat>)
    requires Draining(t0, c, n, t, got) && |got| == n
    ensures WellFormed(t0) && c < 49 && TakeMany(t0, c, n) == (t, got)
  {
    hide MasksExact, CursorsLow;
    assert got + [] == got;
  }
}
