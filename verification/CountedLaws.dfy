/** What candidate B's operations do to the free sets and to its counters. */
module CountedLaws {
  import opened Words
  import opened Bitmaps
  import opened FreeSets
  import opened CountedTable

  function Sets(t: Table): Classes
    requires Shape(t)
  {
    seq(8, c requires 0 <= c < 8 => Free(t, c))
  }

  lemma HasIsFree(t: Table, s: nat)
    requires Shape(t) && s < 262144
    ensures Has(t.occ, s) <==> s in LeafSlots(t.occ, s / 4096)
    ensures Has(t.occ, s) <==> s in Free(t, t.hdr[s / 4096].bound)
  {
  }

  /** Adding one slot: only its leaf's slot set changes. */
  lemma LeafSlotsAdd(occ: seq<Word>, occ': seq<Word>, off: nat)
    requires Slots(occ') == Slots(occ) + {off}
    ensures LeafSlots(occ', off / 4096) == LeafSlots(occ, off / 4096) + {off}
    ensures forall leaf: nat | leaf != off / 4096 :: LeafSlots(occ', leaf) == LeafSlots(occ, leaf)
  {
  }

  lemma LeafSlotsRemove(occ: seq<Word>, occ': seq<Word>, off: nat)
    requires Slots(occ') == Slots(occ) - {off}
    ensures LeafSlots(occ', off / 4096) == LeafSlots(occ, off / 4096) - {off}
    ensures forall leaf: nat | leaf != off / 4096 :: LeafSlots(occ', leaf) == LeafSlots(occ, leaf)
  {
  }

  lemma RetireSlots(t: Table, c: nat, off: nat)
    requires Shape(t) && c < 8 && off < 262144
    ensures Slots(Retire(t, c, off).occ) == Slots(t.occ) + {off}
  {
    LeafArithmetic(off);
    SlotsOfOr(t.occ, off / 64, Mask(off % 64));
    SlotsOfMask(off / 64, off % 64);
  }

  /** Exactly the retires of slots that are not free keep the counters right. */
  lemma RetireKeepsInvariantIff(t: Table, c: nat, off: nat)
    requires Inv(t) && c < 8 && off < 262144
    ensures Inv(Retire(t, c, off)) <==> !Has(t.occ, off)
  {
    hide Or, Mask;
    var t', leaf := Retire(t, c, off), off / 4096;
    RetireSlots(t, c, off);
    LeafSlotsAdd(t.occ, t'.occ, off);
    HasIsFree(t, off);
    if Has(t.occ, off) {
      assert LeafSlots(t'.occ, leaf) == LeafSlots(t.occ, leaf);
      assert t'.hdr[leaf].freeCount != |LeafSlots(t'.occ, leaf)|;
    } else {
      RetireLinks(t, c, off);
      assert CountsExact(t');
    }
  }

  lemma RetireLinks(t: Table, c: nat, off: nat)
    requires Inv(t) && c < 8 && off < 262144
    ensures LinksExact(Retire(t, c, off)) && HintsInRange(Retire(t, c, off))
  {
    hide CountsExact;
  }

  function TargetClass(t: Table, c: nat, off: nat): nat
    requires Shape(t) && off < 262144
  {
    if t.hdr[off / 4096].freeCount == 0 then c else t.hdr[off / 4096].bound
  }

  /** The slots of the leaf of an emptied counter are none. */
  lemma EmptyLeaf(t: Table, s: nat)
    requires Inv(t) && s < 262144 && t.hdr[s / 4096].freeCount == 0
    ensures !Has(t.occ, s)
  {
    HasIsFree(t, s);
  }

  /** A retire of a slot that is not free adds it to the class its leaf is bound to. */
  lemma RetireEffect(t: Table, c: nat, off: nat)
    requires Inv(t) && c < 8 && off < 262144 && !Has(t.occ, off)
    ensures var t' := Retire(t, c, off); var b := TargetClass(t, c, off);
      && Inv(t')
      && Free(t', b) == Free(t, b) + {off}
      && (forall d: nat | d < 8 && d != b :: Free(t', d) == Free(t, d))
      && Bindings(t') == (if t.hdr[off / 4096].freeCount == 0 then Bindings(t)[off / 4096 := c] else Bindings(t))
      && (off in Free(t', c) <==> Fits(t, c, off / 4096))
      && Slots(t'.occ) == Slots(t.occ) + {off}
  {
    RetireKeepsInvariantIff(t, c, off);
    RetireSlots(t, c, off);
    hide CountsExact, LinksExact, Or, Mask, Slots, Bit;
    var t', leaf := Retire(t, c, off), off / 4096;
    forall s: nat | s < 262144
      ensures Has(t'.occ, s) <==> Has(t.occ, s) || s == off
    {
      InSlots(t.occ, s);
      InSlots(t'.occ, s);
    }
    forall s: nat | s < 262144 && s / 4096 == leaf && t.hdr[leaf].freeCount == 0
      ensures !Has(t.occ, s)
    {
      EmptyLeaf(t, s);
    }
  }

  /** How far slot `s` is from the start of word `start`, going round its leaf. */
  function CyclicDistance(start: nat, s: nat): nat {
    (s / 64 + 64 - start) % 64 * 64 + s % 64
  }

  /** The scan finds a non-zero word exactly when the leaf has a slot. */
  lemma ScanFindsIff(occ: seq<Word>, li: nat, start: nat)
    requires |occ| == 4096 && li < 64 && start < 64
    ensures Scan(occ, li, start) < 64 <==> LeafSlots(occ, li) != {}
  {
    if s: nat :| s in LeafSlots(occ, li) {
      LeafArithmetic(s);
      var w := s % 4096 / 64;
      var i := (w + 64 - start) % 64;
      assert (start + i) % 64 == w;
      WordNonZero(occ, 64 * li + w);
      assert ScanWord(occ, li, start, i) != 0;
    } else if i: nat :| i < 64 && ScanWord(occ, li, start, i) != 0 {
      LeafHasSlot(occ, li, (start + i) % 64);
      assert false;
    }
  }

  lemma LeafHasSlot(occ: seq<Word>, li: nat, w: nat)
    requires |occ| == 4096 && li < 64 && w < 64 && occ[64 * li + w] != 0
    ensures LeafSlots(occ, li) != {}
  {
    SlotsOfClearLowest(occ, 64 * li + w);
    assert 64 * (64 * li + w) + TrailingZeros(occ[64 * li + w]) in LeafSlots(occ, li);
  }

  /** A linked leaf has a non-zero word, so the scan finds one: the trailing `None` is unreachable. */
  lemma ScanFinds(t: Table, c: nat)
    requires Inv(t) && c < 8 && t.classWords[c] != 0
    ensures var li := TrailingZeros(t.classWords[c]);
      && li < 64 && t.hdr[li].bound == c && t.hdr[li].freeCount > 0
      && Scan(t.occ, li, t.hdr[li].firstHint) < 64
  {
    ZeroOrBit(t.classWords[c]);
    var li := TrailingZeros(t.classWords[c]);
    ScanFindsIff(t.occ, li, t.hdr[li].firstHint);
    assert |LeafSlots(t.occ, li)| > 0;
  }

  lemma TakeKeepsInv(t: Table, c: nat, li: nat, w: nat)
    requires Inv(t) && c < 8 && li < 64 && w < 64 && t.hdr[li].bound == c && t.occ[64 * li + w] != 0
    ensures t.hdr[li].freeCount > 0
    ensures var t' := TakeFrom(t, c, li, w); var m := 4096 * li + 64 * w + TrailingZeros(t.occ[64 * li + w]);
      && Inv(t') && Bindings(t') == Bindings(t)
      && m in Slots(t.occ) && m / 4096 == li && Slots(t'.occ) == Slots(t.occ) - {m}
  {
    WordHasSlot(t, li, w);
    SlotsOfClearLowest(t.occ, 64 * li + w);
    var t', m := TakeFrom(t, c, li, w), 4096 * li + 64 * w + TrailingZeros(t.occ[64 * li + w]);
    LeafSlotsRemove(t.occ, t'.occ, m);
    hide ClearLowest, TrailingZeros, Slots, LeafSlots;
    assert CountsExact(t') by { hide LinksExact, HintsInRange; }
    hide AndNot, CountsExact, Bit;
    CountDown(t, t', c, li);
  }

  /** Counting a leaf down, and unlinking it at zero, keeps the links exact. */
  lemma CountDown(t: Table, t': Table, c: nat, li: nat)
    requires Shape(t) && Shape(t') && HintsInRange(t) && LinksExact(t) && c < 8 && li < 64
    requires t.hdr[li].bound == c && t.hdr[li].freeCount > 0 && t'.hdr[li].firstHint < 64
    requires t'.hdr == t.hdr[li := LeafHdr(c, t.hdr[li].freeCount - 1, t'.hdr[li].firstHint)]
    requires t'.classWords == if t'.hdr[li].freeCount > 0 then t.classWords
      else t.classWords[c := AndNot(t.classWords[c], Mask(li))]
    ensures LinksExact(t') && HintsInRange(t')
  {
    OneBitLess(t.classWords[c], li);
    hide AndNot, Bit;
  }

  lemma OneBitLess(w: Word, b: nat)
    requires b < 64
    ensures forall i: nat | i < 64 :: Bit(AndNot(w, Mask(b)), i) <==> Bit(w, i) && i != b
  {
  }

  lemma FreeAfterRemoval(t: Table, t': Table, c: nat, m: nat)
    requires Shape(t) && Shape(t') && Bindings(t') == Bindings(t)
    requires m in Slots(t.occ) && m < 262144 && t.hdr[m / 4096].bound == c && Slots(t'.occ) == Slots(t.occ) - {m}
    ensures m in Free(t, c) && Free(t', c) == Free(t, c) - {m}
    ensures forall d: nat | d < 8 && d != c :: Free(t', d) == Free(t, d)
  {
    assert forall s: nat | s < 64 :: t'.hdr[s].bound == Bindings(t')[s] && t.hdr[s].bound == Bindings(t)[s];
    forall s: nat | s < 262144
      ensures Has(t'.occ, s) <==> Has(t.occ, s) && s != m
    {
      InSlots(t.occ, s);
      InSlots(t'.occ, s);
    }
  }

  lemma FreeIsLinked(t: Table, c: nat)
    requires Inv(t) && c < 8
    ensures forall s: nat | s in Free(t, c) :: s / 4096 < 64 && Bit(t.classWords[c], s / 4096)
  {
    forall s: nat | s in Free(t, c)
      ensures s / 4096 < 64 && Bit(t.classWords[c], s / 4096)
    {
      HasIsFree(t, s);
    }
  }

  lemma PopOfUnlinked(t: Table, c: nat)
    requires Inv(t) && c < 8 && t.classWords[c] == 0
    ensures Free(t, c) == {}
  {
    ZeroOrBit(0);
    FreeIsLinked(t, c);
  }

  lemma PopOfLinked(t: Table, c: nat)
    requires Inv(t) && c < 8 && t.classWords[c] != 0
    ensures WellFormed(t)
    ensures var (t', r) := Pop(t, c); var li := TrailingZeros(t.classWords[c]);
      && r != None
      && Inv(t') && Bindings(t') == Bindings(t)
      && r.value in Slots(t.occ) && r.value < 262144 && li < 64
      && r.value / 4096 == li && t.hdr[li].bound == c
      && Slots(t'.occ) == Slots(t.occ) - {r.value}
  {
    InvIsWellFormed(t);
    ScanFinds(t, c);
    hide CountsExact, LinksExact, TakeFrom, Slots, HintsInRange, Scan;
    var li := TrailingZeros(t.classWords[c]);
    var w := (t.hdr[li].firstHint + Scan(t.occ, li, t.hdr[li].firstHint)) % 64;
    TakeKeepsInv(t, c, li, w);
    InSlots(t.occ, Pop(t, c).1.value);
  }

  /** `pop` takes one free slot of the class, and answers `None` exactly when there is none. */
  lemma PopEffect(t: Table, c: nat)
    requires Inv(t) && c < 8
    ensures WellFormed(t)
    ensures var (t', r) := Pop(t, c);
      && Inv(t') && Bindings(t') == Bindings(t)
      && (forall d: nat | d < 8 && d != c :: Free(t', d) == Free(t, d))
      && (Free(t, c) == {} <==> r == None) && (r == None ==> t' == t)
      && (r != None ==> r.value in Free(t, c) && Free(t', c) == Free(t, c) - {r.value})
  {
    InvIsWellFormed(t);
    if t.classWords[c] == 0 {
      PopOfUnlinked(t, c);
    } else {
      PopOfLinked(t, c);
      hide Pop, Inv, Free, Slots;
      var (t', r) := Pop(t, c);
      FreeAfterRemoval(t, t', c, r.value);
    }
  }

  /**
    * Which slot `pop` takes: one of the lowest leaf that has any for the class, and in that leaf the
    * first one met going round from the hint.
    */
  lemma PopOrder(t: Table, c: nat, s: nat)
    requires Inv(t) && c < 8 && s in Free(t, c)
    ensures WellFormed(t)
    ensures var r := Pop(t, c).1;
      && r != None && r.value / 4096 <= s / 4096
      && (r.value / 4096 == s / 4096 ==>
            var hint := t.hdr[s / 4096].firstHint;
            hint < 64 && CyclicDistance(hint, r.value % 4096) <= CyclicDistance(hint, s % 4096))
  {
    hide CyclicDistance;
    InvIsWellFormed(t);
    HasIsFree(t, s);
    assert Bit(t.classWords[c], s / 4096);
    ZeroHasNoBits(s / 4096);
    ScanFinds(t, c);
    hide CountsExact, LinksExact, TakeFrom, Slots, Scan;
    var li := TrailingZeros(t.classWords[c]);
    if s / 4096 == li {
      ScanOrder(t.occ, li, t.hdr[li].firstHint, s);
    }
  }

  /** Within a leaf, the scan's word holds the slot that comes first going round from `start`. */
  lemma ScanOrder(occ: seq<Word>, li: nat, start: nat, s: nat)
    requires |occ| == 4096 && li < 64 && start < 64 && s / 4096 == li && Has(occ, s)
    requires Scan(occ, li, start) < 64
    ensures var w := (start + Scan(occ, li, start)) % 64;
      && occ[64 * li + w] != 0
      && CyclicDistance(start, 64 * w + TrailingZeros(occ[64 * li + w])) <= CyclicDistance(start, s % 4096)
  {
    var i, v := Scan(occ, li, start), s % 4096 / 64;
    var w, k := (start + i) % 64, (v + 64 - start) % 64;
    LeafArithmetic(s);
    RoundTheLeaf(start, v, i);
    LowestOfWord(occ, s);
    assert ScanWord(occ, li, start, k) != 0 && i <= k;
    var b := TrailingZeros(occ[64 * li + w]);
    Distances(start, w, b, i);
    Distances(start, v, s % 64, k);
    if i == k {
      assert w == v;
    }
  }

  lemma Distances(start: nat, w: nat, b: nat, i: nat)
    requires start < 64 && w < 64 && b < 64 && i == (w + 64 - start) % 64
    ensures CyclicDistance(start, 64 * w + b) == 64 * i + b
  {
  }

  lemma RoundTheLeaf(start: nat, w: nat, i: nat)
    requires start < 64 && w < 64 && i < 64
    ensures (start + (w + 64 - start) % 64) % 64 == w
    ensures ((start + i) % 64 + 64 - start) % 64 == i
  {
  }

  lemma LowestOfWord(occ: seq<Word>, s: nat)
    requires Has(occ, s)
    ensures occ[s / 64] != 0 && TrailingZeros(occ[s / 64]) <= s % 64
  {
    ZeroHasNoBits(s % 64);
  }

  /** Bindings and free sets determine everything but the hints. */
  lemma Canonical(a: Table, b: Table)
    requires Inv(a) && Inv(b) && Bindings(a) == Bindings(b)
    requires forall c: nat | c < 8 :: Free(a, c) == Free(b, c)
    ensures a.occ == b.occ && a.classWords == b.classWords
    ensures forall leaf: nat | leaf < 64 :: a.hdr[leaf] == b.hdr[leaf].(firstHint := a.hdr[leaf].firstHint)
  {
    assert forall leaf: nat | leaf < 64 :: a.hdr[leaf].bound == Bindings(a)[leaf] && b.hdr[leaf].bound == Bindings(b)[leaf];
    assert a.occ == b.occ by {
      forall s: nat | s < 262144
        ensures Has(a.occ, s) <==> Has(b.occ, s)
      {
        HasIsFree(a, s);
        HasIsFree(b, s);
      }
      SlotsDetermine(a.occ, b.occ);
    }
    forall c: nat | c < 8
      ensures a.classWords[c] == b.classWords[c]
    {
      var x, y := a.classWords[c], b.classWords[c];
      assert forall leaf: nat | leaf < 64 :: Bit(x, leaf) <==> a.hdr[leaf].freeCount > 0 && a.hdr[leaf].bound == c;
      assert forall leaf: nat | leaf < 64 :: Bit(y, leaf) <==> b.hdr[leaf].freeCount > 0 && b.hdr[leaf].bound == c;
      WordExt(x, y);
    }
  }

  /** `n` pops in a row, stopping at the first `None`: the interface's `drain_into`. */
  function PopMany(t: Table, c: nat, n: nat): (Table, seq<nat>)
    requires Inv(t) && c < 8
    decreases n
  {
    if n == 0 then (t, [])
    else
      PopEffect(t, c);
      var (t1, r) := Pop(t, c);
      if r == None then (t1, [])
      else
        var (t2, rest) := PopMany(t1, c, n - 1);
        (t2, [r.value] + rest)
  }

  lemma DistinctCons(x: nat, rest: seq<nat>)
    requires Distinct(rest) && x !in Elements(rest)
    ensures Distinct([x] + rest)
  {
    assert forall i | 0 <= i < |rest| :: rest[i] in Elements(rest);
  }

  /** A drain takes distinct free slots of the class, as many as were asked for or as there are. */
  lemma {:induction false} PopManyEffect(t: Table, c: nat, n: nat)
    requires Inv(t) && c < 8
    ensures var (t', issued) := PopMany(t, c, n);
      && Inv(t') && Bindings(t') == Bindings(t)
      && Distinct(issued) && Elements(issued) <= Free(t, c)
      && |issued| == (if n < |Free(t, c)| then n else |Free(t, c)|)
      && Free(t', c) == Free(t, c) - Elements(issued)
      && (forall d: nat | d < 8 && d != c :: Free(t', d) == Free(t, d))
    decreases n
  {
    hide Inv, WellFormed, Pop, Free, Bindings;
    if n != 0 {
      PopEffect(t, c);
      var (t1, r) := Pop(t, c);
      if r != None {
        var rest := PopMany(t1, c, n - 1).1;
        PopManyEffect(t1, c, n - 1);
        DistinctCons(r.value, rest);
        hide Distinct, Elements;
        ElementsOfCons(r.value, rest);
      }
    }
  }

  /** The slots can be retired into class `c` one after the other without a double retire. */
  predicate Retirable(t: Table, c: nat, offs: seq<nat>)
    requires Shape(t)
  {
    && Distinct(offs)
    && forall i | 0 <= i < |offs| :: offs[i] < 262144 && !Has(t.occ, offs[i]) && Fits(t, c, offs[i] / 4096)
  }

  /** One retire per offset, in order: the interface's `flush_run`. */
  function RetireMany(t: Table, c: nat, offs: seq<nat>): (r: Table)
    requires Shape(t) && c < 8 && InSegment(offs)
    ensures Shape(r)
    decreases |offs|
  {
    if offs == [] then t else RetireMany(Retire(t, c, offs[0]), c, offs[1..])
  }

  function Bind(bindings: seq<nat>, c: nat, offs: seq<nat>): seq<nat>
    requires |bindings| == 64 && InSegment(offs)
    decreases |offs|
  {
    if offs == [] then bindings else Bind(bindings[offs[0] / 4096 := c], c, offs[1..])
  }

  predicate SameHints(a: Table, b: Table)
    requires Shape(a) && Shape(b)
  {
    forall leaf: nat | leaf < 64 :: a.hdr[leaf].firstHint == b.hdr[leaf].firstHint
  }

  lemma RetireKeepsRetirable(t: Table, c: nat, offs: seq<nat>)
    requires Inv(t) && c < 8 && offs != [] && Retirable(t, c, offs)
    ensures Retirable(Retire(t, c, offs[0]), c, offs[1..])
  {
    var t' := Retire(t, c, offs[0]);
    RetireEffect(t, c, offs[0]);
    hide Inv, Retire, Free;
    var leaf := offs[0] / 4096;
    assert t'.hdr[leaf].bound == Bindings(t')[leaf] && t.hdr[leaf].bound == Bindings(t)[leaf];
    forall i | 0 <= i < |offs[1..]|
      ensures !Has(t'.occ, offs[1..][i]) && Fits(t', c, offs[1..][i] / 4096)
    {
      var s := offs[i + 1];
      assert s != offs[0];
      InSlots(t.occ, s);
      InSlots(t'.occ, s);
      OtherHeaders(t, c, offs[0], s / 4096);
    }
  }

  lemma OtherHeaders(t: Table, c: nat, off: nat, leaf: nat)
    requires Shape(t) && c < 8 && off < 262144 && leaf < 64
    ensures leaf != off / 4096 ==> Retire(t, c, off).hdr[leaf] == t.hdr[leaf]
    ensures SameHints(Retire(t, c, off), t)
  {
  }

  /** Retiring a list of slots that are not free adds them to the class and keeps the counters right. */
  lemma {:induction false} RetireManyEffect(t: Table, c: nat, offs: seq<nat>)
    requires Inv(t) && c < 8 && Retirable(t, c, offs)
    ensures InSegment(offs)
    ensures var t' := RetireMany(t, c, offs);
      && Inv(t')
      && Free(t', c) == Free(t, c) + Elements(offs)
      && (forall d: nat | d < 8 && d != c :: Free(t', d) == Free(t, d))
      && Bindings(t') == Bind(Bindings(t), c, offs)
      && SameHints(t', t)
    decreases |offs|
  {
    hide CountsExact, LinksExact, HintsInRange, Free, Retire;
    if offs != [] {
      var t1 := Retire(t, c, offs[0]);
      RetireEffect(t, c, offs[0]);
      RetireKeepsRetirable(t, c, offs);
      OtherHeaders(t, c, offs[0], 0);
      assert Bindings(t1) == Bindings(t)[offs[0] / 4096 := c];
      RetireManyEffect(t1, c, offs[1..]);
      ElementsOfCons(offs[0], offs[1..]);
      assert [offs[0]] + offs[1..] == offs;
    }
  }

  lemma {:induction false} BindSame(bindings: seq<nat>, c: nat, offs: seq<nat>)
    requires |bindings| == 64 && InSegment(offs)
    requires forall i | 0 <= i < |offs| :: bindings[offs[i] / 4096] == c
    ensures Bind(bindings, c, offs) == bindings
    decreases |offs|
  {
    if offs != [] {
      assert bindings[offs[0] / 4096 := c] == bindings;
      BindSame(bindings, c, offs[1..]);
    }
  }

  /** Popping `n` slots and retiring what came out restores everything but the hints. */
  lemma DrainThenFlush(t: Table, c: nat, n: nat)
    requires Inv(t) && c < 8
    ensures var (t1, issued) := PopMany(t, c, n);
      && Inv(t1) && Retirable(t1, c, issued) && InSegment(issued)
      && var t2 := RetireMany(t1, c, issued);
      && Inv(t2) && t2.occ == t.occ && t2.classWords == t.classWords
      && forall leaf: nat | leaf < 64 :: t2.hdr[leaf] == t.hdr[leaf].(firstHint := t2.hdr[leaf].firstHint)
  {
    hide CountsExact, LinksExact, HintsInRange;
    var (t1, issued) := PopMany(t, c, n);
    PopManyEffect(t, c, n);
    assert forall leaf: nat | leaf < 64 :: t1.hdr[leaf].bound == Bindings(t1)[leaf] && t.hdr[leaf].bound == Bindings(t)[leaf];
    forall i | 0 <= i < |issued|
      ensures issued[i] < 262144 && t1.hdr[issued[i] / 4096].bound == c && !Has(t1.occ, issued[i])
    {
      assert issued[i] in Elements(issued);
      HasIsFree(t1, issued[i]);
    }
    RetireManyEffect(t1, c, issued);
    BindSame(Bindings(t1), c, issued);
    Canonical(RetireMany(t1, c, issued), t);
  }

  /** What a merge leaves in the leaf and in the others. */
  lemma MergeSlots(t: Table, leaf: nat, src: seq<Word>)
    requires Shape(t) && leaf < 64 && |src| == 64 && t.hdr[leaf].bound < 8
    ensures var t' := OrMergeRegion(t, leaf, src); var region := RegionSlots(64 * leaf, src);
      && Slots(t'.occ) == Slots(t.occ) + region
      && LeafSlots(t'.occ, leaf) == LeafSlots(t.occ, leaf) + region
      && (forall l: nat | l < 64 && l != leaf :: LeafSlots(t'.occ, l) == LeafSlots(t.occ, l))
      && t'.hdr[leaf].freeCount == |region|
  {
    SlotsOfOrRange(t.occ, 64 * leaf, src);
    PopCountsAreSlots(64 * leaf, src, 64);
    assert src[..64] == src;
    assert forall s | s in RegionSlots(64 * leaf, src) :: s / 4096 == leaf;
  }

  /** Exactly the primings of an empty leaf, or to the class it has already, keep the links exact. */
  lemma PrimeKeepsInvariantIff(t: Table, c: nat, leaf: nat)
    requires Inv(t) && c < 8 && leaf < 64
    ensures Inv(Prime(t, c, leaf)) <==> Fits(t, c, leaf)
  {
    hide LeafSlots;
    var t' := Prime(t, c, leaf);
    assert t'.classWords == t.classWords && t'.hdr[leaf].freeCount == t.hdr[leaf].freeCount;
    assert CountsExact(t') && HintsInRange(t');
    if !Fits(t, c, leaf) {
      assert Bit(t'.classWords[t.hdr[leaf].bound], leaf);
      assert t'.hdr[leaf].bound == c;
    }
  }

  lemma PrimeEffect(t: Table, c: nat, leaf: nat)
    requires Inv(t) && c < 8 && leaf < 64 && Fits(t, c, leaf)
    ensures var t' := Prime(t, c, leaf);
      Inv(t') && Bindings(t') == Bindings(t)[leaf := c] && forall d: nat | d < 8 :: Free(t', d) == Free(t, d)
  {
    PrimeKeepsInvariantIff(t, c, leaf);
    hide CountsExact, LinksExact, HintsInRange, LeafSlots;
    forall s: nat | s < 262144 && s / 4096 == leaf && t.hdr[leaf].freeCount == 0
      ensures !Has(t.occ, s)
    {
      EmptyLeaf(t, s);
    }
  }

  /**
    * A merge sets the counter to the region's popcount, so it keeps the counters right exactly when
    * the leaf's own slots are all in the region and the region is not empty.
    */
  lemma MergeKeepsInvariantIff(t: Table, leaf: nat, src: seq<Word>)
    requires Inv(t) && leaf < 64 && |src| == 64
    ensures Inv(OrMergeRegion(t, leaf, src)) <==>
      LeafSlots(t.occ, leaf) <= RegionSlots(64 * leaf, src) && RegionSlots(64 * leaf, src) != {}
  {
    var t', region := OrMergeRegion(t, leaf, src), RegionSlots(64 * leaf, src);
    var own := LeafSlots(t.occ, leaf);
    MergeSlots(t, leaf, src);
    hide RegionSlots, OrRange, PopCounts, LeafSlots, Slots;
    assert Bit(t'.classWords[t.hdr[leaf].bound], leaf);
    if own <= region {
      assert own + region == region;
      if region != {} {
        MergeLinks(t, leaf, src);
      }
    } else {
      Larger(own + region, region);
    }
  }

  /** On a fresh table with slot 0 retired: merging a region that holds only slot 1 leaves the counter one short. */
  lemma MergeMiscounts()
    ensures var t, src := Retire(Empty(), 0, 0), [2] + seq(63, _ => 0);
      && Inv(t) && t.hdr[0].bound < 8 && !Inv(OrMergeRegion(t, 0, src))
  {
    EmptyIsValid();
    assert !Has(Empty().occ, 0) by { ZeroHasNoBits(0); }
    RetireEffect(Empty(), 0, 0);
    var t := Retire(Empty(), 0, 0);
    var src: seq<Word> := [2] + seq(63, _ => 0);
    MergeKeepsInvariantIff(t, 0, src);
    assert 0 in Slots(t.occ) && 0 in LeafSlots(t.occ, 0);
    assert !Bit(src[0], 0);
    assert 0 !in RegionSlots(64 * 0, src);
  }

  /**
    * When an empty merge shows. Into a leaf with slots it sets the counter to zero: `pop` counts below zero
    * exactly when the leaf is the lowest that the class has. Into an empty leaf it leaves a link: `pop`
    * answers `None`, and keeps the link, exactly when the leaf lies below all those that the class has.
    */
  lemma EmptyMergeShowsIff(t: Table, leaf: nat, src: seq<Word>)
    requires Inv(t) && leaf < 64 && |src| == 64 && RegionSlots(64 * leaf, src) == {}
    ensures var t', c := OrMergeRegion(t, leaf, src), t.hdr[leaf].bound;
      && t'.classWords[c] != 0
      && var li := TrailingZeros(t'.classWords[c]);
      && li < 64
      && (t'.hdr[li].freeCount == 0 && LeafSlots(t'.occ, li) != {}
          <==> LeafSlots(t.occ, leaf) != {} && forall x: nat | x < 64 && Bit(t.classWords[c], x) :: leaf <= x)
      && (LeafSlots(t.occ, leaf) == {} ==>
            && WellFormed(t')
            && (Pop(t', c) == (t', None) <==> forall x: nat | x < 64 && Bit(t.classWords[c], x) :: leaf < x))
  {
    var t', c := OrMergeRegion(t, leaf, src), t.hdr[leaf].bound;
    LowestOfUnion(t.classWords[c], leaf);
    EmptyMergeEffect(t, leaf, src);
    hide OrRange, PopCounts, RegionSlots, LeafSlots, Slots, Or, Mask, Scan, TrailingZeros, CountsExact;
    var li := TrailingZeros(t'.classWords[c]);
    ScanFindsIff(t'.occ, li, t'.hdr[li].firstHint);
    if li != leaf {
      assert Bit(t.classWords[c], li) && t.hdr[li].freeCount > 0;
    }
  }

  /** An empty merge leaves every leaf's slots, sets one counter to zero, and links that leaf. */
  lemma EmptyMergeEffect(t: Table, leaf: nat, src: seq<Word>)
    requires Inv(t) && leaf < 64 && |src| == 64 && RegionSlots(64 * leaf, src) == {}
    ensures var t' := OrMergeRegion(t, leaf, src);
      && t'.hdr[leaf].freeCount == 0
      && (forall l: nat | l < 64 :: LeafSlots(t'.occ, l) == LeafSlots(t.occ, l))
      && (forall l: nat | l < 64 :: LeafSlots(t.occ, l) == {} <==> t.hdr[l].freeCount == 0)
      && (LeafSlots(t.occ, leaf) == {} ==> WellFormed(t'))
  {
    MergeSlots(t, leaf, src);
    hide OrRange, PopCounts, RegionSlots, LeafSlots, Slots, Or, Mask, Bit, LinksExact;
    var t' := OrMergeRegion(t, leaf, src);
    forall l: nat | l < 64
      ensures LeafSlots(t'.occ, l) == LeafSlots(t.occ, l)
      ensures LeafSlots(t.occ, l) == {} <==> t.hdr[l].freeCount == 0
    {
    }
  }

  lemma MergeLinks(t: Table, leaf: nat, src: seq<Word>)
    requires Inv(t) && leaf < 64 && |src| == 64 && RegionSlots(64 * leaf, src) != {}
    ensures LinksExact(OrMergeRegion(t, leaf, src)) && HintsInRange(OrMergeRegion(t, leaf, src))
  {
    MergeSlots(t, leaf, src);
    hide CountsExact, OrRange, PopCounts, RegionSlots, LeafSlots, Slots, Bit;
    OneMoreBit(t.classWords[t.hdr[leaf].bound], leaf);
    LinkOne(t, OrMergeRegion(t, leaf, src), leaf);
  }

  /** Linking one leaf whose counter becomes positive keeps the links exact. */
  lemma LinkOne(t: Table, t': Table, leaf: nat)
    requires Shape(t) && Shape(t') && HintsInRange(t) && LinksExact(t) && leaf < 64
    requires t'.hdr == t.hdr[leaf := t.hdr[leaf].(freeCount := t'.hdr[leaf].freeCount)] && t'.hdr[leaf].freeCount > 0
    requires var c := t.hdr[leaf].bound; t'.classWords == t.classWords[c := t'.classWords[c]]
    requires var c := t.hdr[leaf].bound;
      forall i: nat | i < 64 :: Bit(t'.classWords[c], i) <==> Bit(t.classWords[c], i) || i == leaf
    ensures LinksExact(t') && HintsInRange(t')
  {
    hide Bit;
  }

  lemma OneMoreBit(w: Word, b: nat)
    requires b < 64
    ensures forall i: nat | i < 64 :: Bit(Or(w, Mask(b)), i) <==> Bit(w, i) || i == b
  {
  }

  lemma Larger(a: set<nat>, b: set<nat>)
    requires b < a
    ensures |a| != |b|
  {
    var x :| x in a && x !in b;
    assert b <= a - {x};
    SizeOfSubset(b, a - {x});
  }

  /** A merge adds the region's slots to the class the leaf is bound to. */
  lemma MergeFree(t: Table, leaf: nat, src: seq<Word>)
    requires Inv(t) && leaf < 64 && |src| == 64
    ensures var t' := OrMergeRegion(t, leaf, src); var c := t.hdr[leaf].bound;
      && Bindings(t') == Bindings(t) && SameHints(t', t)
      && Free(t', c) == Free(t, c) + RegionSlots(64 * leaf, src)
      && (forall d: nat | d < 8 && d != c :: Free(t', d) == Free(t, d))
  {
    var t' := OrMergeRegion(t, leaf, src);
    MergeSlots(t, leaf, src);
    RegionInLeaf(leaf, src);
    hide Inv, OrRange, PopCounts, RegionSlots, LeafSlots, Slots;
    FreeAfterAddition(t, t', t.hdr[leaf].bound, RegionSlots(64 * leaf, src));
  }

  lemma RegionInLeaf(leaf: nat, src: seq<Word>)
    requires leaf < 64 && |src| == 64
    ensures forall s | s in RegionSlots(64 * leaf, src) :: s / 4096 == leaf && s < 262144
  {
  }

  lemma FreeAfterAddition(t: Table, t': Table, c: nat, added: set<nat>)
    requires Shape(t) && Shape(t') && Bindings(t') == Bindings(t)
    requires Slots(t'.occ) == Slots(t.occ) + added
    requires forall s | s in added :: s < 262144 && t.hdr[s / 4096].bound == c
    ensures Free(t', c) == Free(t, c) + added
    ensures forall d: nat | d < 8 && d != c :: Free(t', d) == Free(t, d)
  {
    assert forall s: nat | s < 64 :: t'.hdr[s].bound == Bindings(t')[s] && t.hdr[s].bound == Bindings(t)[s];
    forall s: nat | s < 262144
      ensures Has(t'.occ, s) <==> Has(t.occ, s) || s in added
    {
      InSlots(t.occ, s);
      InSlots(t'.occ, s);
    }
  }

  /** Into an empty leaf, remote merge is bulk retire: exactly the state of one retire per slot, in any order. */
  lemma MergeIsBulkRetire(t: Table, leaf: nat, src: seq<Word>, offs: seq<nat>)
    requires Inv(t) && leaf < 64 && |src| == 64 && LeafSlots(t.occ, leaf) == {}
    requires Elements(offs) == RegionSlots(64 * leaf, src) && Distinct(offs) && offs != []
    ensures InSegment(offs) && OrMergeRegion(t, leaf, src) == RetireMany(t, t.hdr[leaf].bound, offs)
  {
    var c, a := t.hdr[leaf].bound, OrMergeRegion(t, leaf, src);
    MergeKeepsInvariantIff(t, leaf, src);
    MergeFree(t, leaf, src);
    assert offs[0] in Elements(offs);
    forall i | 0 <= i < |offs|
      ensures offs[i] / 4096 == leaf && offs[i] < 262144 && !Has(t.occ, offs[i])
    {
      assert offs[i] in Elements(offs);
      HasIsFree(t, offs[i]);
    }
    hide CountsExact, LinksExact, HintsInRange, OrMergeRegion, Free, RegionSlots, LeafSlots;
    RetireManyEffect(t, c, offs);
    BindSame(Bindings(t), c, offs);
    var b := RetireMany(t, c, offs);
    Canonical(a, b);
    assert a.hdr == b.hdr;
  }
}
