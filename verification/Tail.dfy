/** The fragmentation tail of B3: one carved block per class, each in its own run of whole sub-leaves. */
module Tail {
  import opened Bitmaps
  import opened FreeSets
  import opened SubleafTable
  import opened SubleafLaws
  import opened ClassTable
  import LeafTable3

  /** A block's first slot, its slots, and the slots of the region its class binds. */
  datatype Carve = Carve(off: nat, slots: nat, regionSlots: nat)

  function Region(size: nat): nat {
    SpanOf(size) * 256
  }

  /** Sizes as the class table has them: positive multiples of the 16-byte stride. */
  predicate BlockSizes(sizes: seq<nat>) {
    |sizes| <= 49 && forall c | 0 <= c < |sizes| :: sizes[c] > 0 && sizes[c] % 16 == 0
  }

  /** What the layout promises: aligned regions, one after the other, each large enough for its block. */
  predicate IsLayout(sizes: seq<nat>, out: seq<Carve>) {
    && |out| <= |sizes|
    && (forall c | 0 <= c < |out| ::
          && out[c].slots == sizes[c] / 16 && out[c].regionSlots == Region(sizes[c])
          && 0 < out[c].slots <= out[c].regionSlots && out[c].off % out[c].regionSlots == 0 && out[c].off % 256 == 0)
    && (forall c, d | 0 <= c < d < |out| :: out[c].off + out[c].regionSlots <= out[d].off)
  }

  /** Where the region before that of class `c` ends. */
  function EndBefore(out: seq<Carve>, c: nat): nat
    requires c <= |out|
  {
    if c == 0 then 0 else out[c - 1].off + out[c - 1].regionSlots
  }

  /** Each region starts as early as its alignment lets it: less than one region behind the one before. */
  predicate IsTight(out: seq<Carve>) {
    forall c {:trigger EndBefore(out, c)} | 0 <= c < |out| :: out[c].off < EndBefore(out, c) + out[c].regionSlots
  }

  lemma RegionHoldsBlock(size: nat)
    requires size > 0 && size % 16 == 0
    ensures 0 < size / 16 <= Region(size) && Region(size) % 256 == 0
    ensures 16 * Region(size) - (size - 16) <= 4096
    ensures 16 * Region(size) - (size - 16) == 4096 <==> size % 4096 == 16
  {
  }

  /** The next multiple of a region's length. */
  function AlignUp(slot: nat, region: nat): nat
    requires region > 0
  {
    (slot + region - 1) / region * region
  }

  lemma RoundUp(slot: nat, region: nat)
    requires region > 0 && region % 256 == 0
    ensures var r := AlignUp(slot, region); slot <= r < slot + region && r % region == 0 && r % 256 == 0
  {
    var q := (slot + region - 1) / region;
    assert q * region <= slot + region - 1 < (q + 1) * region;
    ModOfMultiple(q, region);
    var k := region / 256;
    assert q * region == q * k * 256;
    ModOfMultiple(q * k, 256);
  }

  lemma ModOfMultiple(q: nat, d: nat)
    requires d > 0
    ensures q * d % d == 0
  {
    var x := q * d;
    var m := q - x / d;
    assert x == d * (x / d) + x % d;
    assert d * m == x % d;
    MultipleIsFar(d, m);
  }

  lemma MultipleIsFar(d: int, m: int)
    requires d > 0
    ensures m >= 1 ==> d * m >= d
    ensures m <= -1 ==> d * m <= -d
  {
  }

  /** Where the regions of the first `n` classes end when each starts at the next multiple of its length. */
  function LayoutEnd(sizes: seq<nat>, n: nat): nat
    requires BlockSizes(sizes) && n <= |sizes|
  {
    if n == 0 then 0
    else
      RegionHoldsBlock(sizes[n - 1]);
      var region := Region(sizes[n - 1]);
      AlignUp(LayoutEnd(sizes, n - 1), region) + region
  }

  /** A region at the next multiple of its length goes on with the layout. */
  lemma OneMoreRegion(sizes: seq<nat>, out: seq<Carve>, slot: nat)
    requires BlockSizes(sizes) && |out| < |sizes| && IsLayout(sizes, out) && IsTight(out)
    requires slot == EndBefore(out, |out|)
    ensures var size := sizes[|out|];
      && Region(size) > 0
      && var more := out + [Carve(AlignUp(slot, Region(size)), size / 16, Region(size))];
      IsLayout(sizes, more) && IsTight(more)
  {
    var size := sizes[|out|];
    RegionHoldsBlock(size);
    RoundUp(slot, Region(size));
    hide Region, AlignUp, IsTight;
    OneMoreTight(out, Carve(AlignUp(slot, Region(size)), size / 16, Region(size)));
  }

  lemma OneMoreTight(out: seq<Carve>, next: Carve)
    requires IsTight(out) && next.off < EndBefore(out, |out|) + next.regionSlots
    ensures IsTight(out + [next])
  {
    var more := out + [next];
    forall c | 0 <= c < |more|
      ensures more[c].off < EndBefore(more, c) + more[c].regionSlots
    {
      assert EndBefore(more, c) == EndBefore(out, c);
    }
  }

  lemma EndsInOrder(sizes: seq<nat>, out: seq<Carve>)
    requires IsLayout(sizes, out)
    ensures forall c | 0 <= c < |out| ::
      out[c].off + out[c].regionSlots <= out[|out| - 1].off + out[|out| - 1].regionSlots
  {
    hide Region;
  }

  /** One block per class; `fits` is the source's assertion that the carve ends inside the segment. */
  method LayoutClasses(sizes: seq<nat>) returns (out: seq<Carve>, fits: bool)
    requires BlockSizes(sizes)
    ensures |out| == |sizes| && IsLayout(sizes, out) && IsTight(out)
    ensures fits <==> LayoutEnd(sizes, |sizes|) <= SEGMENT_SLOTS
    ensures fits <==> forall c | 0 <= c < |out| :: out[c].off + out[c].regionSlots <= SEGMENT_SLOTS
  {
    out := [];
    var slot := 0;
    for c := 0 to |sizes|
      invariant |out| == c && IsLayout(sizes, out) && IsTight(out)
      invariant slot == EndBefore(out, c)
      invariant slot == LayoutEnd(sizes, c)
    {
      hide Region, AlignUp, IsLayout, IsTight;
      var region := Region(sizes[c]);
      OneMoreRegion(sizes, out, slot);
      slot := AlignUp(slot, region);
      out := out + [Carve(slot, sizes[c] / 16, region)];
      slot := slot + region;
    }
    EndsInOrder(sizes, out);
    fits := slot <= SEGMENT_SLOTS;
  }

  /** Classes `lo` to `hi` each have exactly their block's first slot free, all others nothing. */
  predicate FirstSlotsFree(t: Table, layout: seq<Carve>, lo: nat, hi: nat)
    requires |layout| <= 49
  {
    && Inv(t)
    && (forall c: nat | c < 49 :: Free(t, c) == if lo <= c < hi && c < |layout| then {layout[c].off} else {})
  }

  /** A layout of the segment. */
  predicate Fits(sizes: seq<nat>, layout: seq<Carve>) {
    && BlockSizes(sizes) && IsLayout(sizes, layout) && |layout| == |sizes|
    && forall c | 0 <= c < |layout| :: layout[c].off + layout[c].regionSlots <= SEGMENT_SLOTS
  }

  /** Different blocks never share a sub-leaf. */
  lemma OwnSubleaves(sizes: seq<nat>, layout: seq<Carve>, c: nat, d: nat)
    requires Fits(sizes, layout) && c < |layout| && d < |layout| && c != d
    ensures layout[c].off / 256 != layout[d].off / 256
  {
    RegionHoldsBlock(sizes[c]);
    RegionHoldsBlock(sizes[d]);
  }

  /** A free slot is some block's first. */
  lemma BlockOf(t: Table, layout: seq<Carve>, lo: nat, hi: nat, s: nat) returns (d: nat)
    requires |layout| <= 49 && FirstSlotsFree(t, layout, lo, hi) && Has(t.occ, s)
    ensures lo <= d < hi && d < |layout| && s == layout[d].off
  {
    d := t.hdr[s / 256].bound;
    assert s in Free(t, d);
  }

  /** Another block's first slot lies outside this block's region. */
  lemma OtherRegion(sizes: seq<nat>, layout: seq<Carve>, c: nat, d: nat)
    requires Fits(sizes, layout) && c < |layout| && d < |layout|
    ensures layout[c].off <= layout[d].off < layout[c].off + layout[c].regionSlots ==> c == d
  {
  }

  /** The next class's retire goes into an empty sub-leaf. */
  lemma RetireNext(sizes: seq<nat>, layout: seq<Carve>, t: Table, c: nat)
    requires Fits(sizes, layout) && c < |layout| && FirstSlotsFree(t, layout, 0, c)
    ensures layout[c].off < 262144 && FirstSlotsFree(Retire(t, c, layout[c].off), layout, 0, c + 1)
  {
    var off := layout[c].off;
    RegionHoldsBlock(sizes[c]);
    forall s: nat | Has(t.occ, s)
      ensures s / 256 != off / 256
    {
      var d := BlockOf(t, layout, 0, c, s);
      OwnSubleaves(sizes, layout, c, d);
    }
    EmptySubleaf(t, off / 256);
    hide MasksExact, LinksExact, CursorsLow, Retire, Free;
    RetireEffect(t, c, off);
  }

  /** The pops of a churn round give every first slot back, class by class. */
  lemma PopNext(layout: seq<Carve>, t: Table, c: nat)
    requires |layout| <= 49 && c < |layout| && FirstSlotsFree(t, layout, c, |layout|)
    ensures var (t', r) := Pop(t, c); r == Some(layout[c].off) && FirstSlotsFree(t', layout, c + 1, |layout|)
  {
    hide MasksExact, LinksExact, CursorsLow, Pop, Free;
    PopEffect(t, c);
    MinIs(Free(t, c), layout[c].off);
  }

  /** The free slots of a range of slots. */
  function FreeInRange(t: Table, from: nat, slots: nat): set<nat>
    requires Shape(t)
  {
    set s: nat | from <= s < from + slots && Has(t.occ, s)
  }

  /** The bytes of every bound region that no live block uses, read from the table. */
  function MeasuredTail(t: Table, layout: seq<Carve>): int
    requires Shape(t)
  {
    if layout == [] then 0
    else
      var carve := layout[|layout| - 1];
      var live := (carve.slots - |FreeInRange(t, carve.off, carve.slots)|) * SLOT_BYTES;
      MeasuredTail(t, layout[..|layout| - 1]) + (carve.regionSlots * SLOT_BYTES - live)
  }

  /** The same from the sizes alone, when one slot of every block is free. */
  function AnalyticTail(layout: seq<Carve>): int {
    if layout == [] then 0
    else
      var carve := layout[|layout| - 1];
      AnalyticTail(layout[..|layout| - 1]) + (carve.regionSlots * SLOT_BYTES - (carve.slots - 1) * SLOT_BYTES)
  }

  /** A block's range holds exactly its own first slot. */
  lemma OneFreeSlot(sizes: seq<nat>, layout: seq<Carve>, t: Table, c: nat)
    requires Fits(sizes, layout) && FirstSlotsFree(t, layout, 0, |layout|) && c < |layout|
    ensures FreeInRange(t, layout[c].off, layout[c].slots) == {layout[c].off}
  {
    var carve := layout[c];
    assert carve.off in Free(t, c);
    forall s: nat | carve.off <= s < carve.off + carve.slots && Has(t.occ, s)
      ensures s == carve.off
    {
      var d := BlockOf(t, layout, 0, |layout|, s);
      OtherRegion(sizes, layout, c, d);
    }
  }

  /** The measured tail is the analytic tail. */
  lemma {:induction false} MeasuredIsAnalytic(sizes: seq<nat>, layout: seq<Carve>, t: Table, k: nat)
    requires Fits(sizes, layout) && FirstSlotsFree(t, layout, 0, |layout|) && k <= |layout|
    ensures MeasuredTail(t, layout[..k]) == AnalyticTail(layout[..k])
  {
    if k > 0 {
      MeasuredIsAnalytic(sizes, layout, t, k - 1);
      OneFreeSlot(sizes, layout, t, k - 1);
      assert layout[..k][..k - 1] == layout[..k - 1] && layout[..k][k - 1] == layout[k - 1];
    }
  }

  /** The tail is at most one sub-leaf per class, and exactly that only when every size is 16 modulo 4096. */
  lemma {:induction false} TailBound(sizes: seq<nat>, layout: seq<Carve>, k: nat)
    requires Fits(sizes, layout) && k <= |layout|
    ensures AnalyticTail(layout[..k]) <= 4096 * k
    ensures AnalyticTail(layout[..k]) == 4096 * k <==> forall c | 0 <= c < k :: sizes[c] % 4096 == 16
  {
    if k > 0 {
      TailBound(sizes, layout, k - 1);
      RegionHoldsBlock(sizes[k - 1]);
      hide Region;
      assert layout[..k][..k - 1] == layout[..k - 1] && layout[..k][k - 1] == layout[k - 1];
    }
  }

  /** How many of the first `k` classes span several sub-leaves. */
  function Spanning(k: nat): nat {
    if k > 26 then k - 26 else 0
  }

  /** The churn driver: retire every first slot, then pop it back; each pop answers that very slot. */
  method ChurnClasses(m: LeafTable3.LeafTable3, sizes: seq<nat>, layout: seq<Carve>, rounds: nat)
    requires m.Valid() && Fits(sizes, layout) && FirstSlotsFree(m.State(), layout, 0, 0)
    modifies m, m.occ, m.subHdr, m.classMask, m.classCursor
    ensures FirstSlotsFree(m.State(), layout, 0, 0)
    ensures m.spanRetires == old(m.spanRetires) + rounds * Spanning(|layout|)
  {
    hide FirstSlotsFree, Retire, Pop, IsLayout;
    for r := 0 to rounds
      invariant FirstSlotsFree(m.State(), layout, 0, 0)
      invariant m.spanRetires == old(m.spanRetires) + r * Spanning(|layout|)
    {
      RetireAll(m, sizes, layout);
      for c := 0 to |layout|
        invariant FirstSlotsFree(m.State(), layout, c, |layout|)
        invariant m.spanRetires == old(m.spanRetires) + (r + 1) * Spanning(|layout|)
      {
        PopNext(layout, m.State(), c);
        FirstSlotsInv(m.State(), layout, c, |layout|);
        var answer, _ := m.Pop(c);
        assert answer == Some(layout[c].off);
      }
      NoneFree(m.State(), layout, |layout|);
    }
  }

  lemma FirstSlotsInv(t: Table, layout: seq<Carve>, lo: nat, hi: nat)
    requires |layout| <= 49 && FirstSlotsFree(t, layout, lo, hi)
    ensures WellFormed(t)
  {
  }

  lemma NoneFree(t: Table, layout: seq<Carve>, n: nat)
    requires |layout| <= 49
    ensures FirstSlotsFree(t, layout, n, n) <==> FirstSlotsFree(t, layout, 0, 0)
  {
    hide Inv, Free;
  }

  /** Retire every block's first slot. */
  method RetireAll(m: LeafTable3.LeafTable3, sizes: seq<nat>, layout: seq<Carve>)
    requires m.Valid() && Fits(sizes, layout) && FirstSlotsFree(m.State(), layout, 0, 0)
    modifies m, m.occ, m.subHdr, m.classMask, m.classCursor
    ensures FirstSlotsFree(m.State(), layout, 0, |layout|)
    ensures m.spanRetires == old(m.spanRetires) + Spanning(|layout|)
  {
    hide FirstSlotsFree, Retire;
    for c := 0 to |layout|
      invariant FirstSlotsFree(m.State(), layout, 0, c)
      invariant m.spanRetires == old(m.spanRetires) + Spanning(c)
    {
      RetireNext(sizes, layout, m.State(), c);
      SpanCount(m.State(), c, layout[c].off);
      ghost var _, _ := m.Retire(c, layout[c].off);
    }
  }

  lemma SpanCount(t: Table, c: nat, off: nat)
    requires Shape(t) && c < 49 && off < 262144
    ensures Retire(t, c, off).spanRetires == t.spanRetires + (if c > 25 then 1 else 0)
  {
  }

  /** The whole check on a fresh table: after a churn and a last retire, the measured tail is the analytic one. */
  method FragmentationTail(sizes: seq<nat>, layout: seq<Carve>, rounds: nat) returns (tail: int)
    requires Fits(sizes, layout)
    ensures tail == AnalyticTail(layout) <= 4096 * |layout|
    ensures tail < 4096 * |layout| <==> exists c :: 0 <= c < |layout| && sizes[c] % 4096 != 16
  {
    var m := new LeafTable3.LeafTable3();
    EmptyIsValid();
    assert FirstSlotsFree(m.State(), layout, 0, 0);
    hide FirstSlotsFree, IsLayout;
    ChurnClasses(m, sizes, layout, rounds);
    RetireAll(m, sizes, layout);
    tail := Measure(m, layout);
    MeasuredIsAnalytic(sizes, layout, m.State(), |layout|);
    TailBound(sizes, layout, |layout|);
    assert layout[..|layout|] == layout;
  }

  /** Sum the tail carve by carve, counting free slots bit by bit. */
  method Measure(m: LeafTable3.LeafTable3, layout: seq<Carve>) returns (tail: int)
    requires m.Valid()
    ensures tail == MeasuredTail(m.State(), layout)
  {
    tail := 0;
    for k := 0 to |layout|
      invariant tail == MeasuredTail(m.State(), layout[..k])
    {
      var carve := layout[k];
      var free := CountFree(m, carve.off, carve.slots);
      assert layout[..k + 1][..k] == layout[..k] && layout[..k + 1][k] == carve;
      tail := tail + (carve.regionSlots * SLOT_BYTES - (carve.slots - free) * SLOT_BYTES);
    }
    assert layout[..|layout|] == layout;
  }

  method CountFree(m: LeafTable3.LeafTable3, from: nat, slots: nat) returns (n: nat)
    requires m.Valid()
    ensures n == |FreeInRange(m.State(), from, slots)|
  {
    n := 0;
    assert FreeInRange(m.State(), from, 0) == {};
    for i := 0 to slots
      invariant n == |FreeInRange(m.State(), from, i)|
    {
      var s := from + i;
      var here := Has(m.occ[..], s);
      assert FreeInRange(m.State(), from, i + 1)
          == FreeInRange(m.State(), from, i) + if here then {s} else {};
      if here {
        n := n + 1;
      }
    }
  }

  /** In a sorted table of multiples of 16, class `c` has more than `c` slots: its drain budget is never used up. */
  lemma {:induction false} BudgetSuffices(sizes: seq<nat>, c: nat)
    requires BlockSizes(sizes) && Increasing(sizes) && c < |sizes|
    ensures sizes[c] / 16 > c
  {
    if c > 0 {
      BudgetSuffices(sizes, c - 1);
      assert sizes[c - 1] < sizes[c] && sizes[c] % 16 == 0 && sizes[c - 1] % 16 == 0;
    }
  }

  lemma DrainNext(layout: seq<Carve>, t: Table, c: nat, budget: nat)
    requires |layout| <= 49 && c < |layout| && FirstSlotsFree(t, layout, c, |layout|) && budget > 0
    ensures Inv(t)
    ensures var (t', issued) := PopMany(t, c, budget);
      issued == [layout[c].off] && FirstSlotsFree(t', layout, c + 1, |layout|)
  {
    hide MasksExact, LinksExact, CursorsLow, PopMany, Free;
    PopManyEffect(t, c, budget);
    MinIs(Free(t, c), layout[c].off);
    assert Free(t, c) - {layout[c].off} == {};
    assert Smallest({}, budget - 1) == [];
  }

  /** Draining all classes into one growing buffer returns every first slot once and leaves nothing free. */
  method DrainAll(m: LeafTable3.LeafTable3, sizes: seq<nat>, layout: seq<Carve>) returns (issued: seq<nat>)
    requires m.Valid() && Fits(sizes, layout) && Increasing(sizes) && FirstSlotsFree(m.State(), layout, 0, |layout|)
    modifies m.occ, m.subHdr, m.classMask, m.classCursor
    ensures |issued| == |layout| && forall c | 0 <= c < |layout| :: issued[c] == layout[c].off
    ensures FirstSlotsFree(m.State(), layout, 0, 0)
  {
    hide FirstSlotsFree, PopMany;
    issued := [];
    for c := 0 to |layout|
      invariant FirstSlotsFree(m.State(), layout, c, |layout|)
      invariant |issued| == c && forall d | 0 <= d < c :: issued[d] == layout[d].off
    {
      BudgetSuffices(sizes, c);
      DrainNext(layout, m.State(), c, Budget(c, layout[c].slots));
      ghost var skipped;
      issued, skipped := m.DrainInto(c, issued, layout[c].slots);
    }
    NoneFree(m.State(), layout, |layout|);
  }
}
