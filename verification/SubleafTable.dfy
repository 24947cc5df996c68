/** Candidate B3: 4 KiB sub-leaves, a mask of non-empty sub-leaves and a lazy cursor per class. */
module SubleafTable {
  import opened Words
  import opened Bitmaps
  import opened FreeSets

  const SUBLEAF_SLOTS: nat := 256
  const SUBLEAF_WORDS: nat := 4
  const CLASS_MASK_WORDS: nat := 16
  const LAST_SINGLE_SUBLEAF_CLASS: nat := 25

  /** The class bound to a sub-leaf, and the mask of its non-zero occupancy words. */
  datatype SubLeafHdr = SubLeafHdr(bound: nat, wordsMask: Word)

  /** The whole structure as a value; nested arrays are flattened row by row. */
  datatype Table = Table(
    occ: seq<Word>, hdr: seq<SubLeafHdr>, classMask: seq<Word>, cursor: seq<nat>, spanRetires: nat)

  predicate Shape(t: Table) {
    && |t.occ| == 4096
    && |t.hdr| == 1024
    && |t.classMask| == 784
    && |t.cursor| == 49
  }

  /** Word `wi` of class `c`'s row of the flattened class mask. */
  function MaskWord(mask: seq<Word>, c: nat, wi: nat): Word
    requires |mask| == 784 && c < 49 && wi < 16
  {
    mask[16 * c + wi]
  }

  /** Sub-leaf `sl` is in the mask of class `c`. */
  predicate Linked(t: Table, c: nat, sl: nat)
    requires Shape(t) && c < 49 && sl < 1024
  {
    Bit(MaskWord(t.classMask, c, sl / 64), sl % 64)
  }

  predicate MasksExact(t: Table)
    requires Shape(t)
  {
    forall sl: nat, w: nat | sl < 1024 && w < 64 ::
      Bit(t.hdr[sl].wordsMask, w) <==> w < 4 && t.occ[4 * sl + w] != 0
  }

  predicate LinksExact(t: Table)
    requires Shape(t)
  {
    forall c: nat, sl: nat | c < 49 && sl < 1024 ::
      Linked(t, c, sl) <==> t.hdr[sl].wordsMask != 0 && t.hdr[sl].bound == c
  }

  predicate CursorsLow(t: Table)
    requires Shape(t)
  {
    forall c: nat | c < 49 ::
      t.cursor[c] <= 16 && forall wi: nat | wi < t.cursor[c] :: MaskWord(t.classMask, c, wi) == 0
  }

  /** What every operation needs in order to stay inside its arrays. */
  predicate WellFormed(t: Table) {
    && Shape(t)
    && (forall sl: nat | sl < 1024 :: t.hdr[sl].bound < 49)
    && MasksExact(t)
    && CursorsLow(t)
  }

  /** `r` is the class of the leaf's first non-empty sub-leaf, if there is one. */
  predicate IsLeafClass(t: Table, leaf: nat, r: Option<nat>)
    requires Shape(t) && leaf < 64
  {
    if r.None? then
      forall sl: nat | 16 * leaf <= sl < 16 * leaf + 16 :: t.hdr[sl].wordsMask == 0
    else
      exists sl: nat :: 16 * leaf <= sl < 16 * leaf + 16 && t.hdr[sl].wordsMask != 0 && t.hdr[sl].bound == r.value
        && forall i: nat | 16 * leaf <= i < sl :: t.hdr[i].wordsMask == 0
  }

  /** The bookkeeping invariant. */
  predicate Inv(t: Table) {
    WellFormed(t) && LinksExact(t)
  }

  /** `new`: nothing is free, every cursor says "empty". */
  function Empty(): Table {
    Table(seq(4096, _ => 0), seq(1024, _ => SubLeafHdr(0, 0)), seq(784, _ => 0), seq(49, _ => 16), 0)
  }

  /** The free slots of class `c`. */
  function Free(t: Table, c: nat): set<nat>
    requires Shape(t)
  {
    set s: nat | s < 262144 && Has(t.occ, s) && t.hdr[s / 256].bound == c
  }

  /** The first non-zero word of class `c`'s mask at or after `wi`, or 16. */
  function FirstWord(mask: seq<Word>, c: nat, wi: nat): (r: nat)
    requires |mask| == 784 && c < 49 && wi <= 16
    ensures wi <= r <= 16
    ensures r < 16 ==> MaskWord(mask, c, r) != 0
    ensures forall i: nat | wi <= i < r :: MaskWord(mask, c, i) == 0
    decreases 16 - wi
  {
    if wi == 16 || MaskWord(mask, c, wi) != 0 then wi else FirstWord(mask, c, wi + 1)
  }

  function FirstSubleaf(t: Table, c: nat): (Table, Option<nat>)
    requires Shape(t) && c < 49 && t.cursor[c] <= 16
  {
    var wi := FirstWord(t.classMask, c, t.cursor[c]);
    (t.(cursor := t.cursor[c := wi]),
     if wi < 16 then Some(64 * wi + TrailingZeros(MaskWord(t.classMask, c, wi))) else None)
  }

  function LinkSubleaf(t: Table, c: nat, sl: nat): Table
    requires Shape(t) && c < 49 && sl < 1024
  {
    if Linked(t, c, sl) then t
    else t.(classMask := t.classMask[16 * c + sl / 64 := Or(MaskWord(t.classMask, c, sl / 64), Mask(sl % 64))],
            cursor := if sl / 64 < t.cursor[c] then t.cursor[c := sl / 64] else t.cursor)
  }

  function UnlinkSubleaf(t: Table, c: nat, sl: nat): Table
    requires Shape(t) && c < 49 && sl < 1024
  {
    t.(classMask := t.classMask[16 * c + sl / 64 := AndNot(MaskWord(t.classMask, c, sl / 64), Mask(sl % 64))])
  }

  function CommitWord(t: Table, c: nat, sl: nat, w: nat, bits: Word): Table
    requires Shape(t) && c < 49 && sl < 1024 && w < 4
  {
    var before := t.occ[4 * sl + w];
    var h := t.hdr[sl];
    var h' := if before != 0 then h
              else SubLeafHdr(if h.wordsMask == 0 then c else h.bound, Or(h.wordsMask, Mask(w)));
    LinkSubleaf(t.(occ := t.occ[4 * sl + w := Or(before, bits)], hdr := t.hdr[sl := h']), c, sl)
  }

  /** A sub-leaf takes slots of class `c` when it is empty or already bound to `c`. */
  predicate Fits(t: Table, c: nat, sl: nat)
    requires Shape(t) && sl < 1024
  {
    t.hdr[sl].wordsMask == 0 || t.hdr[sl].bound == c
  }

  lemma CommitWordMasks(t: Table, c: nat, sl: nat, w: nat, bits: Word)
    requires Shape(t) && MasksExact(t) && c < 49 && sl < 1024 && w < 4 && bits != 0
    ensures MasksExact(CommitWord(t, c, sl, w, bits))
    ensures CommitWord(t, c, sl, w, bits).hdr[sl].wordsMask != 0
  {
    var t' := CommitWord(t, c, sl, w, bits);
    ZeroHasNoBits(TrailingZeros(bits));
    assert t'.occ[4 * sl + w] != 0;
    forall i: nat | i < 64
      ensures Bit(t'.hdr[sl].wordsMask, i) <==> i < 4 && t'.occ[4 * sl + i] != 0
    {
    }
    assert Bit(t'.hdr[sl].wordsMask, w);
    ZeroHasNoBits(w);
  }

  lemma LinkMasks(t: Table, c: nat, sl: nat)
    requires Shape(t) && c < 49 && sl < 1024 && CursorsLow(t)
    ensures var t' := LinkSubleaf(t, c, sl);
      && CursorsLow(t')
      && forall d: nat, x: nat | d < 49 && x < 1024 :: Linked(t', d, x) <==> Linked(t, d, x) || (d == c && x == sl)
  {
    var t' := LinkSubleaf(t, c, sl);
    forall d: nat, x: nat | d < 49 && x < 1024
      ensures Linked(t', d, x) <==> Linked(t, d, x) || (d == c && x == sl)
    {
    }
    forall d: nat, wi: nat | d < 49 && wi < 16 && (d != c || wi != sl / 64)
      ensures MaskWord(t'.classMask, d, wi) == MaskWord(t.classMask, d, wi)
    {
    }
  }

  /** The class bindings of the sub-leaf headers. */
  function Bindings(t: Table): seq<nat>
    requires Shape(t)
  {
    seq(1024, sl requires 0 <= sl < 1024 => t.hdr[sl].bound)
  }

  lemma CommitWordKeepsInv(t: Table, c: nat, sl: nat, w: nat, bits: Word)
    requires Inv(t) && c < 49 && sl < 1024 && w < 4 && bits != 0 && Fits(t, c, sl)
    ensures var t' := CommitWord(t, c, sl, w, bits);
      && Inv(t') && t'.hdr[sl].bound == c
      && Bindings(t') == Bindings(t)[sl := c]
      && t'.cursor == (if t.hdr[sl].wordsMask == 0 && sl / 64 < t.cursor[c] then t.cursor[c := sl / 64] else t.cursor)
  {
    var t' := CommitWord(t, c, sl, w, bits);
    CommitWordMasks(t, c, sl, w, bits);
    hide Or, Mask;
    var t1 := t.(occ := t'.occ, hdr := t'.hdr);
    LinkMasks(t1, c, sl);
    assert t'.hdr[sl].bound == c by {
      if t.hdr[sl].wordsMask == 0 {
        assert !Bit(t.hdr[sl].wordsMask, w) by { ZeroHasNoBits(w); }
      }
    }
    assert forall d: nat, x: nat | d < 49 && x < 1024 :: Linked(t1, d, x) <==> Linked(t, d, x);
  }

  lemma CommitWordEffect(t: Table, c: nat, sl: nat, w: nat, bits: Word)
    requires Inv(t) && c < 49 && sl < 1024 && w < 4 && bits != 0 && Fits(t, c, sl)
    ensures var t' := CommitWord(t, c, sl, w, bits);
      && Inv(t')
      && Free(t', c) == Free(t, c) + WordSlots(4 * sl + w, bits)
      && (forall d: nat | d < 49 && d != c :: Free(t', d) == Free(t, d))
      && Bindings(t') == Bindings(t)[sl := c]
      && t'.cursor == (if t.hdr[sl].wordsMask == 0 && sl / 64 < t.cursor[c] then t.cursor[c := sl / 64] else t.cursor)
  {
    CommitWordKeepsInv(t, c, sl, w, bits);
    SlotsOfOr(t.occ, 4 * sl + w, bits);
    EmptySubleaf(t, sl);
    var t' := CommitWord(t, c, sl, w, bits);
    assert t'.occ == t.occ[4 * sl + w := Or(t.occ[4 * sl + w], bits)];
    hide MasksExact, LinksExact, CursorsLow, CommitWord, Or, Slots;
    FreeAfterCommit(t, t', c, sl, WordSlots(4 * sl + w, bits));
  }

  /** Slots added to one sub-leaf go to its class; the sub-leaf was empty if the class is new to it. */
  lemma FreeAfterCommit(t: Table, t': Table, c: nat, sl: nat, added: set<nat>)
    requires Shape(t) && Shape(t') && sl < 1024 && c < 49 && Bindings(t') == Bindings(t)[sl := c]
    requires Slots(t'.occ) == Slots(t.occ) + added
    requires forall s | s in added :: 256 * sl <= s < 256 * sl + 256
    requires t.hdr[sl].bound == c || forall s: nat | 256 * sl <= s < 256 * sl + 256 :: !Has(t.occ, s)
    ensures Free(t', c) == Free(t, c) + added
    ensures forall d: nat | d < 49 && d != c :: Free(t', d) == Free(t, d)
  {
    assert forall s: nat | s < 1024 :: t'.hdr[s].bound == Bindings(t')[s] && t.hdr[s].bound == Bindings(t)[s];
    forall s: nat | s < 262144
      ensures Has(t'.occ, s) <==> Has(t.occ, s) || s in added
    {
      InSlots(t.occ, s);
      InSlots(t'.occ, s);
    }
  }

  /** A sub-leaf with no non-zero word has no free slot. */
  lemma EmptySubleaf(t: Table, sl: nat)
    requires Shape(t) && MasksExact(t) && sl < 1024
    ensures t.hdr[sl].wordsMask == 0 <==> forall s: nat | 256 * sl <= s < 256 * sl + 256 :: !Has(t.occ, s)
  {
    var mask := t.hdr[sl].wordsMask;
    if mask == 0 {
      forall s: nat | 256 * sl <= s < 256 * sl + 256
        ensures !Has(t.occ, s)
      {
        ZeroHasNoBits(s / 64 - 4 * sl);
        assert !Bit(mask, s / 64 - 4 * sl);
        ZeroHasNoBits(s % 64);
      }
    } else {
      WordNonZero(t.occ, 4 * sl + TrailingZeros(mask));
    }
  }

  /** One `pop`: cursor, class mask, words mask, word. */
  function Pop(t: Table, c: nat): (Table, Option<nat>)
    requires WellFormed(t) && c < 49
  {
    FirstSubleafEffect(t, c);
    var (t1, found) := FirstSubleaf(t, c);
    if found == None then (t1, None)
    else
      var sl := found.value;
      var mask := t1.hdr[sl].wordsMask;
      if mask == 0 then (UnlinkSubleaf(t1, c, sl), None)
      else
        LowestWord(t, sl);
        var w := TrailingZeros(mask);
        (TakeLowest(t1, c, sl), Some(256 * sl + 64 * w + TrailingZeros(t1.occ[4 * sl + w])))
  }

  /** The updates of `pop` once the sub-leaf is known. */
  function TakeLowest(t: Table, c: nat, sl: nat): Table
    requires WellFormed(t) && c < 49 && sl < 1024 && t.hdr[sl].wordsMask != 0
  {
    LowestWord(t, sl);
    var h := t.hdr[sl];
    var w := TrailingZeros(h.wordsMask);
    var rest := ClearLowest(t.occ[4 * sl + w]);
    StoreRest(t, c, sl, w, rest)
  }

  /** Store what is left of word `w`; drop the word, and then the sub-leaf, when nothing is. */
  function StoreRest(t: Table, c: nat, sl: nat, w: nat, rest: Word): Table
    requires Shape(t) && c < 49 && sl < 1024 && w < 4
  {
    var t1 := t.(occ := t.occ[4 * sl + w := rest]);
    if rest != 0 then t1
    else
      var mask := AndNot(t.hdr[sl].wordsMask, Mask(w));
      var t2 := t1.(hdr := t.hdr[sl := t.hdr[sl].(wordsMask := mask)]);
      if mask == 0 then UnlinkSubleaf(t2, c, sl) else t2
  }

  lemma LowestWord(t: Table, sl: nat)
    requires Shape(t) && MasksExact(t) && sl < 1024 && t.hdr[sl].wordsMask != 0
    ensures var w := TrailingZeros(t.hdr[sl].wordsMask);
      && w < 4 && t.occ[4 * sl + w] != 0
      && forall i: nat | Bit(t.hdr[sl].wordsMask, i) :: w <= i
  {
  }

  lemma SameMasks(t: Table, t1: Table)
    requires Shape(t) && MasksExact(t) && Shape(t1) && t1.occ == t.occ && t1.hdr == t.hdr
    ensures MasksExact(t1)
  {
  }

  /** The cursor finds the lowest sub-leaf linked to the class, and moves to its mask word. */
  lemma FirstSubleafEffect(t: Table, c: nat)
    requires WellFormed(t) && c < 49
    ensures var (t1, found) := FirstSubleaf(t, c);
      && WellFormed(t1)
      && (LinksExact(t) ==> LinksExact(t1))
      && (found == None ==> t1.cursor[c] == 16 && forall sl: nat | sl < 1024 :: !Linked(t, c, sl))
      && (found.Some? ==>
            && found.value < 1024 && Linked(t, c, found.value) && t1.cursor[c] == found.value / 64
            && forall sl: nat | sl < 1024 && Linked(t, c, sl) :: found.value <= sl)
  {
    hide MasksExact, FirstWord;
    var wi := FirstWord(t.classMask, c, t.cursor[c]);
    var (t1, found) := FirstSubleaf(t, c);
    assert forall i: nat | i < wi :: MaskWord(t.classMask, c, i) == 0;
    SameMasks(t, t1);
    forall sl: nat | sl < 1024 && Linked(t, c, sl)
      ensures found.Some? && found.value <= sl
    {
      if sl / 64 < wi {
        ZeroHasNoBits(sl % 64);
      }
    }
    assert forall d: nat, x: nat | d < 49 && x < 1024 :: Linked(t1, d, x) <==> Linked(t, d, x);
  }

  lemma UnlinkMasks(t: Table, c: nat, sl: nat)
    requires Shape(t) && c < 49 && sl < 1024 && CursorsLow(t)
    ensures var t' := UnlinkSubleaf(t, c, sl);
      && CursorsLow(t')
      && forall d: nat, x: nat | d < 49 && x < 1024 :: Linked(t', d, x) <==> Linked(t, d, x) && !(d == c && x == sl)
  {
    var t' := UnlinkSubleaf(t, c, sl);
    forall d: nat, x: nat | d < 49 && x < 1024
      ensures Linked(t', d, x) <==> Linked(t, d, x) && !(d == c && x == sl)
    {
    }
    forall d: nat, wi: nat | d < 49 && wi < t.cursor[d]
      ensures MaskWord(t'.classMask, d, wi) == 0
    {
      assert MaskWord(t.classMask, d, wi) == 0;
      AndNotOfZero(Mask(sl % 64));
    }
  }

  /** Storing the rest of a word removes exactly the slots that left it. */
  lemma StoreRestEffect(t: Table, c: nat, sl: nat, w: nat, rest: Word)
    requires Inv(t) && c < 49 && sl < 1024 && w < 4
    requires t.hdr[sl].bound == c && t.occ[4 * sl + w] != 0
    ensures var t' := StoreRest(t, c, sl, w, rest);
      && Inv(t')
      && t'.occ == t.occ[4 * sl + w := rest]
      && Bindings(t') == Bindings(t)
      && t'.cursor == t.cursor && t'.spanRetires == t.spanRetires
  {
    var t' := StoreRest(t, c, sl, w, rest);
    assert t.hdr[sl].wordsMask != 0 by {
      assert Bit(t.hdr[sl].wordsMask, w);
      ZeroHasNoBits(w);
    }
    StoreRestMasks(t, c, sl, w, rest);
    hide AndNot, Mask, MasksExact;
    var t2 := t.(occ := t'.occ, hdr := t'.hdr);
    assert forall d: nat, x: nat | d < 49 && x < 1024 :: Linked(t2, d, x) <==> Linked(t, d, x);
    if rest == 0 && t'.hdr[sl].wordsMask == 0 {
      UnlinkMasks(t2, c, sl);
    }
  }

  lemma StoreRestMasks(t: Table, c: nat, sl: nat, w: nat, rest: Word)
    requires WellFormed(t) && c < 49 && sl < 1024 && w < 4 && t.occ[4 * sl + w] != 0
    ensures MasksExact(StoreRest(t, c, sl, w, rest))
  {
    hide CursorsLow;
    var t', mask := StoreRest(t, c, sl, w, rest), t.hdr[sl].wordsMask;
    forall i: nat | i < 64
      ensures Bit(t'.hdr[sl].wordsMask, i) <==> i < 4 && t'.occ[4 * sl + i] != 0
    {
      assert Bit(mask, i) <==> i < 4 && t.occ[4 * sl + i] != 0;
    }
  }

  /** A linked sub-leaf's lowest word holds the smallest free slot of its class. */
  lemma LowestSlot(t: Table, c: nat, sl: nat)
    requires Inv(t) && c < 49 && sl < 1024 && Linked(t, c, sl)
    requires forall x: nat | x < 1024 && Linked(t, c, x) :: sl <= x
    ensures t.hdr[sl].wordsMask != 0
    ensures var w := TrailingZeros(t.hdr[sl].wordsMask);
      && w < 4 && t.occ[4 * sl + w] != 0
      && Free(t, c) != {}
      && Min(Free(t, c)) == 256 * sl + 64 * w + TrailingZeros(t.occ[4 * sl + w])
  {
    LowestWord(t, sl);
    var w := TrailingZeros(t.hdr[sl].wordsMask);
    var word := t.occ[4 * sl + w];
    var m := 256 * sl + 64 * w + TrailingZeros(word);
    SlotsOfClearLowest(t.occ, 4 * sl + w);
    assert m in Free(t, c);
    forall s: nat | s in Free(t, c)
      ensures m <= s
    {
      EmptySubleaf(t, s / 256);
      assert Linked(t, c, s / 256);
      if s / 256 == sl {
        ZeroHasNoBits(s % 64);
        assert Bit(t.hdr[sl].wordsMask, s / 64 - 4 * sl);
      }
    }
    MinIs(Free(t, c), m);
  }

  /** Equal occupancy and bindings give equal free sets; a removed slot leaves its class only. */
  lemma FreeAfterRemoval(t: Table, t': Table, c: nat, m: nat)
    requires Shape(t) && Shape(t') && Bindings(t') == Bindings(t)
    requires m in Free(t, c) && Slots(t'.occ) == Slots(t.occ) - {m}
    ensures Free(t', c) == Free(t, c) - {m}
    ensures forall d: nat | d < 49 && d != c :: Free(t', d) == Free(t, d)
  {
    assert forall s: nat | s < 1024 :: t'.hdr[s].bound == Bindings(t')[s] && t.hdr[s].bound == Bindings(t)[s];
    forall s: nat | s < 262144
      ensures Has(t'.occ, s) <==> Has(t.occ, s) && s != m
    {
      InSlots(t.occ, s);
      InSlots(t'.occ, s);
    }
  }

  lemma FreeIsLinked(t: Table, c: nat)
    requires Inv(t) && c < 49
    ensures forall s: nat | s in Free(t, c) :: s / 256 < 1024 && Linked(t, c, s / 256)
  {
    forall s: nat | s in Free(t, c)
      ensures s / 256 < 1024 && Linked(t, c, s / 256)
    {
      EmptySubleaf(t, s / 256);
    }
  }

  lemma NoLinkNoFree(t: Table, c: nat)
    requires Inv(t) && c < 49 && forall sl: nat | sl < 1024 :: !Linked(t, c, sl)
    ensures Free(t, c) == {}
  {
    FreeIsLinked(t, c);
  }

  /**
    * `pop` answers the smallest free slot of the class and removes only that one; it answers
    * `None` exactly when the class has no free slot. The cursor ends on the answer's mask word.
    */
  lemma PopEffect(t: Table, c: nat)
    requires Inv(t) && c < 49
    ensures var (t', r) := Pop(t, c);
      && Inv(t')
      && Bindings(t') == Bindings(t)
      && t'.spanRetires == t.spanRetires
      && (forall d: nat | d < 49 && d != c :: Free(t', d) == Free(t, d))
      && (Free(t, c) == {} ==> r == None && t' == t.(cursor := t.cursor[c := 16]) && Free(t', c) == {})
      && (Free(t, c) != {} ==>
            && r == Some(Min(Free(t, c)))
            && Free(t', c) == Free(t, c) - {Min(Free(t, c))}
            && t'.cursor == t.cursor[c := Min(Free(t, c)) / 16384])
  {
    hide Bit, TrailingZeros, MasksExact, CursorsLow, LinksExact, Linked, StoreRest, ClearLowest, Slots;
    FirstSubleafEffect(t, c);
    var (t1, found) := FirstSubleaf(t, c);
    if found == None {
      NoLinkNoFree(t, c);
    } else {
      var sl := found.value;
      LowestSlot(t, c, sl);
      var w := TrailingZeros(t.hdr[sl].wordsMask);
      var rest := ClearLowest(t.occ[4 * sl + w]);
      var t' := StoreRest(t1, c, sl, w, rest);
      hide Free, Bindings;
      assert Pop(t, c).0 == t';
      SlotsOfClearLowest(t.occ, 4 * sl + w);
      StoreRestEffect(t1, c, sl, w, rest);
      FreeAfterRemoval(t, t', c, Min(Free(t, c)));
    }
  }

  /** One `retire`. */
  function Retire(t: Table, c: nat, off: nat): Table
    requires Shape(t) && c < 49 && off < 262144
  {
    var t1 := if c > LAST_SINGLE_SUBLEAF_CLASS then t.(spanRetires := t.spanRetires + 1) else t;
    CommitWord(t1, c, off / 256, off % 256 / 64, Mask(off % 64))
  }

  /** `n` pops in a row, stopping at the first `None`: the interface's own `drain_into`. */
  function PopMany(t: Table, c: nat, n: nat): (Table, seq<nat>)
    requires Inv(t) && c < 49
    decreases n
  {
    if n == 0 then (t, [])
    else
      PopEffect(t, c);
      var (t1, r) := Pop(t, c);
      if r == None then (t1, [])
      else
        var (t2, rest) := PopMany(t1, c, n - 1);
        (t2, [r.value] + rest)
  }

  /** One retire per offset, in order: the interface's own `flush_run`. */
  function RetireMany(t: Table, c: nat, offs: seq<nat>): (r: Table)
    requires Shape(t) && c < 49 && InSegment(offs)
    ensures Shape(r)
    decreases |offs|
  {
    if offs == [] then t else RetireMany(Retire(t, c, offs[0]), c, offs[1..])
  }

  /** Two commits to one word are one commit of both bit sets, in any state. */
  lemma CommitsFuse(t: Table, c: nat, sl: nat, w: nat, first: Word, second: Word)
    requires Shape(t) && c < 49 && sl < 1024 && w < 4 && first != 0
    ensures CommitWord(CommitWord(t, c, sl, w, first), c, sl, w, second)
         == CommitWord(t, c, sl, w, Or(first, second))
  {
    var t1 := CommitWord(t, c, sl, w, first);
    OrAssociates(t.occ[4 * sl + w], first, second);
    OrIsZero(t.occ[4 * sl + w], first);
    assert Linked(t1, c, sl) by {
    }
    assert t1.hdr[sl := t1.hdr[sl]] == t1.hdr;
  }

  /** A fresh table has no free slot and has counted nothing, and a merge without a priming goes to class 0. */
  lemma EmptyIsValid()
    ensures Inv(Empty()) && forall c: nat | c < 49 :: Free(Empty(), c) == {}
    ensures Empty().spanRetires == 0 && forall sl: nat | sl < 1024 :: Empty().hdr[sl].bound == 0
  {
    var t := Empty();
    forall sl: nat, w: nat | sl < 1024 && w < 64
      ensures !Bit(t.hdr[sl].wordsMask, w)
    {
      ZeroHasNoBits(w);
    }
    forall c: nat, sl: nat | c < 49 && sl < 1024
      ensures !Linked(t, c, sl)
    {
      ZeroHasNoBits(sl % 64);
    }
    forall s: nat | s < 262144
      ensures !Has(t.occ, s)
    {
      ZeroHasNoBits(s % 64);
    }
  }

  /** Commits neither read nor write the span counter. */
  lemma {:induction false} SpanIrrelevant(t: Table, c: nat, offs: seq<nat>, k: nat, m: nat)
    requires Shape(t) && c < 49 && InSegment(offs)
    ensures RetireMany(t.(spanRetires := k), c, offs).(spanRetires := m) == RetireMany(t, c, offs).(spanRetires := m)
    decreases |offs|
  {
    if offs != [] {
      var t1 := Retire(t, c, offs[0]);
      var t2 := Retire(t.(spanRetires := k), c, offs[0]);
      assert t2 == t1.(spanRetires := t2.spanRetires);
      SpanIrrelevant(t1, c, offs[1..], t2.spanRetires, m);
    }
  }

  /** Bind a sub-leaf to a class ahead of a merge: the header is written, nothing else is looked at. */
  function Prime(t: Table, c: nat, sl: nat): Table
    requires Shape(t) && sl < 1024
  {
    t.(hdr := t.hdr[sl := t.hdr[sl].(bound := c)])
  }

  /** Remote merge of one sub-leaf's words: OR, recompute the words mask, link unconditionally. */
  function OrMergeRegion(t: Table, sl: nat, src: seq<Word>): Table
    requires Shape(t) && sl < 1024 && |src| == 4 && t.hdr[sl].bound < 49
  {
    var occ := OrRange(t.occ, 4 * sl, src, 4);
    var mask := NonZeroMask(occ[4 * sl..4 * sl + 4], 4);
    LinkSubleaf(t.(occ := occ, hdr := t.hdr[sl := t.hdr[sl].(wordsMask := mask)]), t.hdr[sl].bound, sl)
  }

  /** How many slots a drain into a buffer of length `len` may still issue. */
  function Budget(len: nat, n: nat): nat {
    if len < n then n - len else 0
  }
}
