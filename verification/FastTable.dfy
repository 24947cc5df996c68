/** Candidate B2 as a value: 64 KiB leaves, a mask of non-zero words per leaf, one word of leaves per class. */
module FastTable {
  import opened Words
  import opened Bitmaps
  import opened FreeSets

  /** The class bound to a leaf, and the mask of its non-zero occupancy words. */
  datatype LeafHdrFast = LeafHdrFast(bound: nat, wordsMask: Word)

  datatype Table = Table(occ: seq<Word>, hdr: seq<LeafHdrFast>, classWords: seq<Word>)

  predicate Shape(t: Table) {
    |t.occ| == 4096 && |t.hdr| == 64 && |t.classWords| == 8
  }

  predicate MasksExact(t: Table)
    requires Shape(t)
  {
    forall leaf: nat, w: nat | leaf < 64 && w < 64 ::
      Bit(t.hdr[leaf].wordsMask, w) <==> t.occ[64 * leaf + w] != 0
  }

  predicate LinksExact(t: Table)
    requires Shape(t)
  {
    forall c: nat, leaf: nat | c < 8 && leaf < 64 ::
      Bit(t.classWords[c], leaf) <==> t.hdr[leaf].wordsMask != 0 && t.hdr[leaf].bound == c
  }

  /** The three levels agree. */
  predicate Inv(t: Table) {
    && Shape(t)
    && (forall leaf: nat | leaf < 64 :: t.hdr[leaf].bound < 8)
    && MasksExact(t)
    && LinksExact(t)
  }

  function Empty(): Table {
    Table(seq(4096, _ => 0), seq(64, _ => LeafHdrFast(0, 0)), seq(8, _ => 0))
  }

  /** The free slots of class `c`. */
  function Free(t: Table, c: nat): set<nat>
    requires Shape(t)
  {
    set s: nat | s < 262144 && Has(t.occ, s) && t.hdr[s / 4096].bound == c
  }

  function Bindings(t: Table): seq<nat>
    requires Shape(t)
  {
    seq(64, leaf requires 0 <= leaf < 64 => t.hdr[leaf].bound)
  }

  /** A leaf takes slots of class `c` when it is empty or already bound to `c`. */
  predicate Fits(t: Table, c: nat, leaf: nat)
    requires Shape(t) && leaf < 64
  {
    t.hdr[leaf].wordsMask == 0 || t.hdr[leaf].bound == c
  }

  /** One `retire`: the class is linked and bound only when the leaf was empty. */
  function Retire(t: Table, c: nat, off: nat): Table
    requires Shape(t) && c < 8 && off < 262144
  {
    var leaf, k := off / 4096, off / 64;
    var before := t.occ[k];
    var t1 := t.(occ := t.occ[k := Or(before, Mask(off % 64))]);
    if before != 0 then t1
    else
      var h := t.hdr[leaf];
      var mask := Or(h.wordsMask, Mask(off % 4096 / 64));
      if h.wordsMask != 0 then t1.(hdr := t.hdr[leaf := h.(wordsMask := mask)])
      else
        t1.(hdr := t.hdr[leaf := LeafHdrFast(c, mask)],
            classWords := t.classWords[c := Or(t.classWords[c], Mask(leaf))])
  }

  /** One `pop`: class word, words mask, word. */
  function Pop(t: Table, c: nat): (Table, Option<nat>)
    requires Inv(t) && c < 8
  {
    var cw := t.classWords[c];
    if cw == 0 then (t, None)
    else
      LinkedLeaf(t, c);
      var li := TrailingZeros(cw);
      var h := t.hdr[li];
      var w := TrailingZeros(h.wordsMask);
      var word := t.occ[64 * li + w];
      (StoreRest(t, c, li, w, ClearLowest(word)), Some(4096 * li + 64 * w + TrailingZeros(word)))
  }

  /** Store what is left of word `w`; drop the word, and then the leaf, when nothing is. */
  function StoreRest(t: Table, c: nat, li: nat, w: nat, rest: Word): Table
    requires Shape(t) && c < 8 && li < 64 && w < 64
  {
    var t1 := t.(occ := t.occ[64 * li + w := rest]);
    if rest != 0 then t1
    else
      var mask := AndNot(t.hdr[li].wordsMask, Mask(w));
      var t2 := t1.(hdr := t.hdr[li := t.hdr[li].(wordsMask := mask)]);
      if mask != 0 then t2
      else t2.(classWords := t.classWords[c := AndNot(t.classWords[c], Mask(li))])
  }

  /** The leaf that a non-zero class word names first has a non-zero word, and its mask finds it. */
  lemma LinkedLeaf(t: Table, c: nat)
    requires Inv(t) && c < 8 && t.classWords[c] != 0
    ensures var li := TrailingZeros(t.classWords[c]);
      && li < 64 && t.hdr[li].wordsMask != 0 && t.hdr[li].bound == c
      && var w := TrailingZeros(t.hdr[li].wordsMask);
      w < 64 && t.occ[64 * li + w] != 0
  {
  }

  /** Bind a leaf to a class ahead of a merge: the header is written, nothing else is looked at. */
  function Prime(t: Table, c: nat, leaf: nat): Table
    requires Shape(t) && leaf < 64
  {
    t.(hdr := t.hdr[leaf := t.hdr[leaf].(bound := c)])
  }

  /** Remote merge of one leaf's words: OR, recompute the words mask, link unconditionally. */
  function OrMergeRegion(t: Table, leaf: nat, src: seq<Word>): Table
    requires Shape(t) && leaf < 64 && |src| == 64 && t.hdr[leaf].bound < 8
  {
    var occ := OrRange(t.occ, 64 * leaf, src, 64);
    var c := t.hdr[leaf].bound;
    Table(occ,
          t.hdr[leaf := t.hdr[leaf].(wordsMask := NonZeroMask(occ[64 * leaf..64 * leaf + 64], 64))],
          t.classWords[c := Or(t.classWords[c], Mask(leaf))])
  }

  /** A fresh table has no free slot, and a merge without a priming goes to class 0. */
  lemma EmptyIsValid()
    ensures Inv(Empty()) && forall c: nat | c < 8 :: Free(Empty(), c) == {}
    ensures forall leaf: nat | leaf < 64 :: Empty().hdr[leaf].bound == 0
  {
    ZeroOrBit(0);
    forall s: nat | s < 262144
      ensures !Has(Empty().occ, s)
    {
      ZeroHasNoBits(s % 64);
    }
  }

  /** A leaf with no non-zero word has no free slot, and the other way round. */
  lemma EmptyLeaf(t: Table, leaf: nat)
    requires Shape(t) && MasksExact(t) && leaf < 64
    ensures t.hdr[leaf].wordsMask == 0 <==> forall s: nat | 4096 * leaf <= s < 4096 * leaf + 4096 :: !Has(t.occ, s)
  {
    var mask := t.hdr[leaf].wordsMask;
    ZeroOrBit(mask);
    if mask == 0 {
      forall s: nat | 4096 * leaf <= s < 4096 * leaf + 4096
        ensures !Has(t.occ, s)
      {
        assert !Bit(mask, s / 64 - 64 * leaf);
        ZeroHasNoBits(s % 64);
      }
    } else {
      WordNonZero(t.occ, 64 * leaf + TrailingZeros(mask));
    }
  }

  /** A changed slot set, the same bindings: each class changes by its own slots. */
  lemma FreeFromSlots(t: Table, t': Table, added: set<nat>, removed: set<nat>)
    requires Shape(t) && Shape(t') && Bindings(t') == Bindings(t)
    requires Slots(t'.occ) == Slots(t.occ) - removed + added
    requires forall s | s in added :: s < 262144
    ensures forall d: nat | d < 8 ::
      Free(t', d) == Free(t, d) - removed + set s | s in added && t.hdr[s / 4096].bound == d
  {
    assert forall s: nat | s < 64 :: t'.hdr[s].bound == Bindings(t')[s] && t.hdr[s].bound == Bindings(t)[s];
    forall s: nat | s < 262144
      ensures Has(t'.occ, s) <==> (Has(t.occ, s) && s !in removed) || s in added
    {
      InSlots(t.occ, s);
      InSlots(t'.occ, s);
    }
  }

  lemma RetireMasks(t: Table, c: nat, off: nat)
    requires Inv(t) && c < 8 && off < 262144
    ensures MasksExact(Retire(t, c, off)) && Retire(t, c, off).hdr[off / 4096].wordsMask != 0
  {
    LeafArithmetic(off);
    hide LinksExact;
    var leaf, w, k := off / 4096, off % 4096 / 64, off / 64;
    var t' := Retire(t, c, off);
    MaskNonZero(off % 64);
    OrIsZero(t.occ[k], Mask(off % 64));
    assert t'.occ[64 * leaf + w] != 0;
    assert Bit(t.hdr[leaf].wordsMask, w) <==> t.occ[k] != 0;
    hide Or;
    RetiredMask(t.hdr[leaf].wordsMask, w);
    forall i: nat | i < 64
      ensures Bit(t'.hdr[leaf].wordsMask, i) <==> t'.occ[64 * leaf + i] != 0
    {
      assert Bit(t.hdr[leaf].wordsMask, i) <==> t.occ[64 * leaf + i] != 0;
    }
    ZeroHasNoBits(w);
  }

  lemma RetiredMask(mask: Word, w: nat)
    requires w < 64
    ensures forall i: nat | i < 64 :: Bit(Or(mask, Mask(w)), i) <==> Bit(mask, i) || i == w
  {
  }

  lemma RetireLinks(t: Table, c: nat, off: nat)
    requires Inv(t) && c < 8 && off < 262144
    ensures LinksExact(Retire(t, c, off))
  {
    RetireMasks(t, c, off);
    LeafArithmetic(off);
    hide MasksExact;
    var leaf, t' := off / 4096, Retire(t, c, off);
    ZeroHasNoBits(off % 4096 / 64);
    RetiredMask(t.classWords[c], leaf);
    hide Or;
  }

  lemma RetireKeepsInv(t: Table, c: nat, off: nat)
    requires Inv(t) && c < 8 && off < 262144
    ensures var t' := Retire(t, c, off);
      && Inv(t')
      && Slots(t'.occ) == Slots(t.occ) + {off}
      && Bindings(t') == (if t.hdr[off / 4096].wordsMask == 0 then Bindings(t)[off / 4096 := c] else Bindings(t))
  {
    RetireMasks(t, c, off);
    RetireLinks(t, c, off);
    LeafArithmetic(off);
    SlotsOfOr(t.occ, off / 64, Mask(off % 64));
    SlotsOfMask(off / 64, off % 64);
    assert Bit(t.hdr[off / 4096].wordsMask, off % 4096 / 64) <==> t.occ[off / 64] != 0;
    ZeroHasNoBits(off % 4096 / 64);
    hide MasksExact, LinksExact, Or, Slots, WordSlots;
  }
}
