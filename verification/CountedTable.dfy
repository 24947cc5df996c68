/** Candidate B as a value: a free counter and a rotating word hint per 64 KiB leaf. */
module CountedTable {
  import opened Words
  import opened Bitmaps
  import opened FreeSets

  /** The class bound to a leaf, its free counter, and the word its next scan starts at. */
  datatype LeafHdr = LeafHdr(bound: nat, freeCount: nat, firstHint: nat)

  datatype Table = Table(occ: seq<Word>, hdr: seq<LeafHdr>, classWords: seq<Word>)

  predicate Shape(t: Table) {
    |t.occ| == 4096 && |t.hdr| == 64 && |t.classWords| == 8
  }

  /** The free slots of a leaf, whatever its class. */
  function LeafSlots(occ: seq<Word>, leaf: nat): set<nat> {
    set s | s in Slots(occ) && s / 4096 == leaf
  }

  predicate CountsExact(t: Table)
    requires Shape(t)
  {
    forall leaf: nat | leaf < 64 :: t.hdr[leaf].freeCount == |LeafSlots(t.occ, leaf)|
  }

  predicate LinksExact(t: Table)
    requires Shape(t)
  {
    forall c: nat, leaf: nat | c < 8 && leaf < 64 ::
      Bit(t.classWords[c], leaf) <==> t.hdr[leaf].freeCount > 0 && t.hdr[leaf].bound == c
  }

  predicate HintsInRange(t: Table)
    requires Shape(t)
  {
    forall leaf: nat | leaf < 64 :: t.hdr[leaf].bound < 8 && t.hdr[leaf].firstHint < 64
  }

  /** Counters are popcounts; a class word names the leaves with a positive counter. */
  predicate Inv(t: Table) {
    Shape(t) && HintsInRange(t) && CountsExact(t) && LinksExact(t)
  }

  /** What `pop` needs to stay inside its arrays and not to count below zero. */
  predicate WellFormed(t: Table) {
    && Shape(t) && HintsInRange(t)
    && forall leaf: nat | leaf < 64 && t.hdr[leaf].freeCount == 0 :: LeafSlots(t.occ, leaf) == {}
  }

  function Empty(): Table {
    Table(seq(4096, _ => 0), seq(64, _ => LeafHdr(0, 0, 0)), seq(8, _ => 0))
  }

  /** The free slots of class `c`. */
  function Free(t: Table, c: nat): set<nat>
    requires Shape(t)
  {
    set s: nat | s < 262144 && Has(t.occ, s) && t.hdr[s / 4096].bound == c
  }

  function Bindings(t: Table): seq<nat>
    requires Shape(t)
  {
    seq(64, leaf requires 0 <= leaf < 64 => t.hdr[leaf].bound)
  }

  /** A leaf takes slots of class `c` when it is empty or already bound to `c`. */
  predicate Fits(t: Table, c: nat, leaf: nat)
    requires Shape(t) && leaf < 64
  {
    t.hdr[leaf].freeCount == 0 || t.hdr[leaf].bound == c
  }

  /** One `retire`: the counter goes up by one, whether or not the slot was free. */
  function Retire(t: Table, c: nat, off: nat): Table
    requires Shape(t) && c < 8 && off < 262144
  {
    var leaf, k := off / 4096, off / 64;
    var h := t.hdr[leaf];
    var t1 := t.(occ := t.occ[k := Or(t.occ[k], Mask(off % 64))],
                 hdr := t.hdr[leaf := h.(freeCount := h.freeCount + 1,
                                         bound := if h.freeCount == 0 then c else h.bound)]);
    if h.freeCount == 0 then t1.(classWords := t.classWords[c := Or(t.classWords[c], Mask(leaf))]) else t1
  }

  /** The word that the `i`-th step of a cyclic scan from `start` looks at. */
  function ScanWord(occ: seq<Word>, leaf: nat, start: nat, i: nat): Word
    requires |occ| == 4096 && leaf < 64
  {
    occ[64 * leaf + (start + i) % 64]
  }

  predicate StopsAt(occ: seq<Word>, leaf: nat, start: nat, i: nat)
    requires |occ| == 4096 && leaf < 64
  {
    ScanWord(occ, leaf, start, i) != 0 && forall j: nat | j < i :: ScanWord(occ, leaf, start, j) == 0
  }

  predicate AllZero(occ: seq<Word>, leaf: nat, start: nat, n: nat)
    requires |occ| == 4096 && leaf < 64
  {
    forall j: nat | j < n :: ScanWord(occ, leaf, start, j) == 0
  }

  /** The step at which the scan meets its first non-zero word; 64 when all are zero. */
  function Scan(occ: seq<Word>, leaf: nat, start: nat): nat
    requires |occ| == 4096 && leaf < 64
  {
    if AllZero(occ, leaf, start, 64) then 64
    else
      ScanStops(occ, leaf, start, 64);
      var i: nat :| 0 <= i < 64 && StopsAt(occ, leaf, start, i);
      i
  }

  lemma {:induction false} ScanStops(occ: seq<Word>, leaf: nat, start: nat, n: nat)
    requires |occ| == 4096 && leaf < 64 && !AllZero(occ, leaf, start, n)
    ensures exists i: nat :: i < n && StopsAt(occ, leaf, start, i)
    ensures forall i: nat, j: nat | StopsAt(occ, leaf, start, i) && StopsAt(occ, leaf, start, j) :: i == j
  {
    if AllZero(occ, leaf, start, n - 1) {
      assert StopsAt(occ, leaf, start, n - 1);
    } else {
      ScanStops(occ, leaf, start, n - 1);
    }
  }

  /** One `pop`: class word, then a cyclic scan of the leaf's words from its hint. */
  function Pop(t: Table, c: nat): (Table, Option<nat>)
    requires WellFormed(t) && c < 8
  {
    var cw := t.classWords[c];
    if cw == 0 then (t, None)
    else
      var li := TrailingZeros(cw);
      var i := Scan(t.occ, li, t.hdr[li].firstHint);
      if i == 64 then (t, None)
      else
        var w := (t.hdr[li].firstHint + i) % 64;
        var word := t.occ[64 * li + w];
        WordHasSlot(t, li, w);
        (TakeFrom(t, c, li, w), Some(4096 * li + 64 * w + TrailingZeros(word)))
  }

  /** Clear the lowest bit of word `w`, count down, move the hint, unlink at zero. */
  function TakeFrom(t: Table, c: nat, li: nat, w: nat): Table
    requires Shape(t) && c < 8 && li < 64 && w < 64 && t.occ[64 * li + w] != 0 && t.hdr[li].freeCount > 0
  {
    var h := t.hdr[li].(freeCount := t.hdr[li].freeCount - 1, firstHint := w);
    var t1 := t.(occ := t.occ[64 * li + w := ClearLowest(t.occ[64 * li + w])], hdr := t.hdr[li := h]);
    if h.freeCount == 0 then t1.(classWords := t.classWords[c := AndNot(t.classWords[c], Mask(li))]) else t1
  }

  /** A non-zero word has a slot, so its leaf's counter is positive. */
  lemma WordHasSlot(t: Table, li: nat, w: nat)
    requires WellFormed(t) && li < 64 && w < 64 && t.occ[64 * li + w] != 0
    ensures t.hdr[li].freeCount > 0
  {
    SlotsOfClearLowest(t.occ, 64 * li + w);
    assert 64 * (64 * li + w) + TrailingZeros(t.occ[64 * li + w]) in LeafSlots(t.occ, li);
  }

  /** Bind a leaf to a class ahead of a merge: the header is written, nothing else is looked at. */
  function Prime(t: Table, c: nat, leaf: nat): Table
    requires Shape(t) && leaf < 64
  {
    t.(hdr := t.hdr[leaf := t.hdr[leaf].(bound := c)])
  }

  /** Remote merge: OR, set the counter to the region's popcount, link unconditionally. */
  function OrMergeRegion(t: Table, leaf: nat, src: seq<Word>): Table
    requires Shape(t) && leaf < 64 && |src| == 64 && t.hdr[leaf].bound < 8
  {
    var c := t.hdr[leaf].bound;
    Table(OrRange(t.occ, 64 * leaf, src, 64),
          t.hdr[leaf := t.hdr[leaf].(freeCount := PopCounts(src, 64))],
          t.classWords[c := Or(t.classWords[c], Mask(leaf))])
  }

  /** A fresh table has no free slot, and a merge without a priming goes to class 0. */
  lemma EmptyIsValid()
    ensures Inv(Empty()) && forall c: nat | c < 8 :: Free(Empty(), c) == {}
    ensures forall leaf: nat | leaf < 64 :: Empty().hdr[leaf].bound == 0
  {
    ZeroOrBit(0);
    forall s: nat | s < 262144
      ensures !Has(Empty().occ, s)
    {
      ZeroHasNoBits(s % 64);
    }
    forall leaf: nat | leaf < 64
      ensures LeafSlots(Empty().occ, leaf) == {}
    {
    }
  }

  lemma InvIsWellFormed(t: Table)
    requires Inv(t)
    ensures WellFormed(t)
  {
  }
}
