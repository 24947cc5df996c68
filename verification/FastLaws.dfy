/** What candidate B2's operations do to the free sets, and what one operation undoes of another. */
module FastLaws {
  import opened Words
  import opened Bitmaps
  import opened FreeSets
  import opened FastTable

  function Sets(t: Table): Classes
    requires Shape(t)
  {
    seq(8, c requires 0 <= c < 8 => Free(t, c))
  }

  /** Bindings and free sets determine the whole table. */
  lemma Canonical(a: Table, b: Table)
    requires Inv(a) && Inv(b) && Bindings(a) == Bindings(b)
    requires forall c: nat | c < 8 :: Free(a, c) == Free(b, c)
    ensures a == b
  {
    assert forall leaf: nat | leaf < 64 :: a.hdr[leaf].bound == Bindings(a)[leaf] && b.hdr[leaf].bound == Bindings(b)[leaf];
    assert a.occ == b.occ by {
      forall s: nat | s < 262144
        ensures Has(a.occ, s) <==> Has(b.occ, s)
      {
        var c := a.hdr[s / 4096].bound;
        assert s in Free(a, c) <==> s in Free(b, c);
      }
      SlotsDetermine(a.occ, b.occ);
    }
    forall leaf: nat | leaf < 64
      ensures a.hdr[leaf] == b.hdr[leaf]
    {
      WordExt(a.hdr[leaf].wordsMask, b.hdr[leaf].wordsMask);
    }
    forall c: nat | c < 8
      ensures a.classWords[c] == b.classWords[c]
    {
      var x, y := a.classWords[c], b.classWords[c];
      assert forall leaf: nat | leaf < 64 :: Bit(x, leaf) <==> a.hdr[leaf].wordsMask != 0 && a.hdr[leaf].bound == c;
      assert forall leaf: nat | leaf < 64 :: Bit(y, leaf) <==> b.hdr[leaf].wordsMask != 0 && b.hdr[leaf].bound == c;
      WordExt(x, y);
    }
  }

  /** The class a retired slot really goes to: the leaf's own, unless the leaf was empty. */
  function TargetClass(t: Table, c: nat, off: nat): nat
    requires Shape(t) && off < 262144
  {
    if t.hdr[off / 4096].wordsMask == 0 then c else t.hdr[off / 4096].bound
  }

  /**
    * A retire adds one slot to the class its leaf is bound to, and to no other. It reaches the class
    * it was called with exactly when the leaf was empty or bound to that class.
    */
  lemma RetireEffect(t: Table, c: nat, off: nat)
    requires Inv(t) && c < 8 && off < 262144
    ensures var t' := Retire(t, c, off); var b := TargetClass(t, c, off);
      && Inv(t')
      && Free(t', b) == Free(t, b) + {off}
      && (forall d: nat | d < 8 && d != b :: Free(t', d) == Free(t, d))
      && Bindings(t') == (if t.hdr[off / 4096].wordsMask == 0 then Bindings(t)[off / 4096 := c] else Bindings(t))
      && (off in Free(t', c) <==> Fits(t, c, off / 4096))
  {
    hide MasksExact, LinksExact, Retire;
    var t', leaf := Retire(t, c, off), off / 4096;
    RetireKeepsInv(t, c, off);
    EmptyLeaf(t, leaf);
    assert forall s: nat | s < 64 :: t'.hdr[s].bound == Bindings(t')[s] && t.hdr[s].bound == Bindings(t)[s];
    forall s: nat | s < 262144
      ensures Has(t'.occ, s) <==> Has(t.occ, s) || s == off
    {
      InSlots(t.occ, s);
      InSlots(t'.occ, s);
    }
  }

  lemma StoreRestKeepsInv(t: Table, c: nat, li: nat, w: nat, rest: Word)
    requires Inv(t) && c < 8 && li < 64 && w < 64 && t.hdr[li].bound == c && t.occ[64 * li + w] != 0
    ensures var t' := StoreRest(t, c, li, w, rest);
      Inv(t') && t'.occ == t.occ[64 * li + w := rest] && Bindings(t') == Bindings(t)
  {
    var t' := StoreRest(t, c, li, w, rest);
    assert Bit(t.hdr[li].wordsMask, w);
    ZeroOrBit(t.hdr[li].wordsMask);
    assert t.hdr[li].wordsMask != 0;
  }

  /** The lowest word of the first linked leaf holds the smallest free slot of the class. */
  lemma LowestSlot(t: Table, c: nat)
    requires Inv(t) && c < 8 && t.classWords[c] != 0
    ensures var li := TrailingZeros(t.classWords[c]); var w := TrailingZeros(t.hdr[li].wordsMask);
      && li < 64 && w < 64 && t.occ[64 * li + w] != 0
      && Free(t, c) != {}
      && Min(Free(t, c)) == 4096 * li + 64 * w + TrailingZeros(t.occ[64 * li + w])
  {
    LinkedLeaf(t, c);
    var li := TrailingZeros(t.classWords[c]);
    var w := TrailingZeros(t.hdr[li].wordsMask);
    var word := t.occ[64 * li + w];
    var m := 4096 * li + 64 * w + TrailingZeros(word);
    SlotsOfClearLowest(t.occ, 64 * li + w);
    assert m in Free(t, c);
    forall s: nat | s in Free(t, c)
      ensures m <= s
    {
      EmptyLeaf(t, s / 4096);
      assert Bit(t.classWords[c], s / 4096);
      if s / 4096 == li {
        ZeroHasNoBits(s % 64);
        assert Bit(t.hdr[li].wordsMask, s / 64 - 64 * li);
      }
    }
    MinIs(Free(t, c), m);
  }

  lemma FreeIsLinked(t: Table, c: nat)
    requires Inv(t) && c < 8
    ensures forall s: nat | s in Free(t, c) :: s / 4096 < 64 && Bit(t.classWords[c], s / 4096)
  {
    forall s: nat | s in Free(t, c)
      ensures s / 4096 < 64 && Bit(t.classWords[c], s / 4096)
    {
      EmptyLeaf(t, s / 4096);
    }
  }

  /** `pop` answers the smallest free slot of the class, `None` exactly when there is none. */
  lemma PopEffect(t: Table, c: nat)
    requires Inv(t) && c < 8
    ensures var (t', r) := Pop(t, c);
      && Inv(t') && Bindings(t') == Bindings(t)
      && (forall d: nat | d < 8 && d != c :: Free(t', d) == Free(t, d))
      && (Free(t, c) == {} ==> r == None && t' == t)
      && (Free(t, c) != {} ==> r == Some(Min(Free(t, c))) && Free(t', c) == Free(t, c) - {Min(Free(t, c))})
  {
    if t.classWords[c] == 0 {
      ZeroOrBit(0);
      FreeIsLinked(t, c);
      assert Free(t, c) == {};
    } else {
      hide MasksExact, LinksExact, StoreRest;
      LowestSlot(t, c);
      LinkedLeaf(t, c);
      var li := TrailingZeros(t.classWords[c]);
      var w := TrailingZeros(t.hdr[li].wordsMask);
      SlotsOfClearLowest(t.occ, 64 * li + w);
      StoreRestKeepsInv(t, c, li, w, ClearLowest(t.occ[64 * li + w]));
      FreeFromSlots(t, Pop(t, c).0, {}, {Min(Free(t, c))});
    }
  }

  /** `n` pops in a row, stopping at the first `None`: the interface's `drain_into`. */
  function PopMany(t: Table, c: nat, n: nat): (Table, seq<nat>)
    requires Inv(t) && c < 8
    decreases n
  {
    if n == 0 then (t, [])
    else
      PopEffect(t, c);
      var (t1, r) := Pop(t, c);
      if r == None then (t1, [])
      else
        var (t2, rest) := PopMany(t1, c, n - 1);
        (t2, [r.value] + rest)
  }

  /** One retire per offset, in order: the interface's `flush_run`. */
  function RetireMany(t: Table, c: nat, offs: seq<nat>): (r: Table)
    requires Shape(t) && c < 8 && InSegment(offs)
    ensures Shape(r)
    decreases |offs|
  {
    if offs == [] then t else RetireMany(Retire(t, c, offs[0]), c, offs[1..])
  }

  lemma {:induction false} PopManyEffect(t: Table, c: nat, n: nat)
    requires Inv(t) && c < 8
    ensures var (t', issued) := PopMany(t, c, n);
      && Inv(t') && Bindings(t') == Bindings(t)
      && issued == Smallest(Free(t, c), n)
      && Free(t', c) == Free(t, c) - Elements(issued)
      && (forall d: nat | d < 8 && d != c :: Free(t', d) == Free(t, d))
    decreases n
  {
    hide MasksExact, LinksExact, Pop, Free, Bindings;
    if n != 0 {
      PopEffect(t, c);
      var (t1, r) := Pop(t, c);
      if r != None {
        PopManyEffect(t1, c, n - 1);
        ElementsOfCons(r.value, PopMany(t1, c, n - 1).1);
      }
    }
  }

  predicate AllFit(t: Table, c: nat, offs: seq<nat>)
    requires Shape(t)
  {
    forall i | 0 <= i < |offs| :: offs[i] < 262144 && Fits(t, c, offs[i] / 4096)
  }

  function Bind(bindings: seq<nat>, c: nat, offs: seq<nat>): seq<nat>
    requires |bindings| == 64 && InSegment(offs)
    decreases |offs|
  {
    if offs == [] then bindings else Bind(bindings[offs[0] / 4096 := c], c, offs[1..])
  }

  lemma RetireKeepsFits(t: Table, c: nat, off: nat, offs: seq<nat>)
    requires Inv(t) && c < 8 && off < 262144 && Fits(t, c, off / 4096) && AllFit(t, c, offs)
    ensures AllFit(Retire(t, c, off), c, offs)
  {
    RetireEffect(t, c, off);
    var t' := Retire(t, c, off);
    assert t'.hdr[off / 4096].bound == Bindings(t')[off / 4096] && t.hdr[off / 4096].bound == Bindings(t)[off / 4096];
  }

  lemma {:induction false} RetireManyEffect(t: Table, c: nat, offs: seq<nat>)
    requires Inv(t) && c < 8 && AllFit(t, c, offs)
    ensures InSegment(offs)
    ensures var t' := RetireMany(t, c, offs);
      && Inv(t')
      && Free(t', c) == Free(t, c) + Elements(offs)
      && (forall d: nat | d < 8 && d != c :: Free(t', d) == Free(t, d))
      && Bindings(t') == Bind(Bindings(t), c, offs)
    decreases |offs|
  {
    hide MasksExact, LinksExact, Free, Retire;
    if offs != [] {
      var t1 := Retire(t, c, offs[0]);
      RetireEffect(t, c, offs[0]);
      RetireKeepsFits(t, c, offs[0], offs[1..]);
      assert Bindings(t1) == Bindings(t)[offs[0] / 4096 := c];
      RetireManyEffect(t1, c, offs[1..]);
      ElementsOfCons(offs[0], offs[1..]);
      assert [offs[0]] + offs[1..] == offs;
    }
  }

  lemma {:induction false} BindSame(bindings: seq<nat>, c: nat, offs: seq<nat>)
    requires |bindings| == 64 && InSegment(offs)
    requires forall i | 0 <= i < |offs| :: bindings[offs[i] / 4096] == c
    ensures Bind(bindings, c, offs) == bindings
    decreases |offs|
  {
    if offs != [] {
      assert bindings[offs[0] / 4096 := c] == bindings;
      BindSame(bindings, c, offs[1..]);
    }
  }

  /** Popping `n` slots and retiring what came out restores the table exactly. */
  lemma DrainThenFlush(t: Table, c: nat, n: nat)
    requires Inv(t) && c < 8
    ensures var (t1, issued) := PopMany(t, c, n);
      && Inv(t1) && AllFit(t1, c, issued) && InSegment(issued)
      && RetireMany(t1, c, issued) == t
  {
    hide MasksExact, LinksExact, PopMany, Smallest;
    var (t1, issued) := PopMany(t, c, n);
    PopManyEffect(t, c, n);
    SmallestAreSmallest(Free(t, c), n);
    assert forall leaf: nat | leaf < 64 :: t1.hdr[leaf].bound == Bindings(t1)[leaf] && t.hdr[leaf].bound == Bindings(t)[leaf];
    forall i | 0 <= i < |issued|
      ensures issued[i] < 262144 && t1.hdr[issued[i] / 4096].bound == c
    {
      assert issued[i] in Free(t, c);
    }
    RetireManyEffect(t1, c, issued);
    BindSame(Bindings(t1), c, issued);
    assert Elements(issued) <= Free(t, c);
    Canonical(t, RetireMany(t1, c, issued));
  }

  /** Exactly the primings of an empty leaf, or to the class it has already, keep the index exact. */
  lemma PrimeKeepsInvariantIff(t: Table, c: nat, leaf: nat)
    requires Inv(t) && c < 8 && leaf < 64
    ensures Inv(Prime(t, c, leaf)) <==> Fits(t, c, leaf)
  {
    var t' := Prime(t, c, leaf);
    assert t'.classWords == t.classWords && t'.hdr[leaf].wordsMask == t.hdr[leaf].wordsMask;
    if !Fits(t, c, leaf) {
      assert Bit(t'.classWords[t.hdr[leaf].bound], leaf);
      assert t'.hdr[leaf].bound == c;
    } else {
      assert MasksExact(t');
    }
  }

  lemma PrimeEffect(t: Table, c: nat, leaf: nat)
    requires Inv(t) && c < 8 && leaf < 64 && Fits(t, c, leaf)
    ensures var t' := Prime(t, c, leaf);
      Inv(t') && Bindings(t') == Bindings(t)[leaf := c] && forall d: nat | d < 8 :: Free(t', d) == Free(t, d)
  {
    PrimeKeepsInvariantIff(t, c, leaf);
    EmptyLeaf(t, leaf);
  }

  /** The union of a leaf's words and a source region has a bit. */
  predicate UnionNonEmpty(t: Table, leaf: nat, src: seq<Word>)
    requires Shape(t) && leaf < 64
  {
    t.hdr[leaf].wordsMask != 0 || exists w :: 0 <= w < |src| && src[w] != 0
  }

  lemma MergeMasksExact(t: Table, leaf: nat, src: seq<Word>)
    requires Inv(t) && leaf < 64 && |src| == 64
    ensures MasksExact(OrMergeRegion(t, leaf, src))
  {
    hide Or, TrailingZeros, LinksExact;
    var t' := OrMergeRegion(t, leaf, src);
    forall i: nat | i < 64
      ensures Bit(t'.hdr[leaf].wordsMask, i) <==> t'.occ[64 * leaf + i] != 0
    {
      BitOfNonZeroMask(t'.occ[64 * leaf..64 * leaf + 64], 64, i);
    }
  }

  /** The merged leaf is empty exactly when it and the source were. */
  lemma MergeMasks(t: Table, leaf: nat, src: seq<Word>)
    requires Inv(t) && leaf < 64 && |src| == 64
    ensures MasksExact(OrMergeRegion(t, leaf, src))
    ensures OrMergeRegion(t, leaf, src).hdr[leaf].wordsMask != 0 <==> UnionNonEmpty(t, leaf, src)
  {
    MergeMasksExact(t, leaf, src);
    hide Or, LinksExact, NonZeroMask;
    var t' := OrMergeRegion(t, leaf, src);
    var mask, mask' := t.hdr[leaf].wordsMask, t'.hdr[leaf].wordsMask;
    assert t'.occ == OrRange(t.occ, 64 * leaf, src, 64);
    forall i: nat | i < 64
      ensures Bit(mask', i) <==> Bit(mask, i) || src[i] != 0
    {
      assert Bit(mask', i) <==> t'.occ[64 * leaf + i] != 0;
      OrIsZero(t.occ[64 * leaf + i], src[i]);
    }
    ZeroOrBit(mask);
    ZeroOrBit(mask');
    if UnionNonEmpty(t, leaf, src) && mask == 0 {
      var w :| 0 <= w < 64 && src[w] != 0;
      assert Bit(mask', w);
    }
  }

  lemma MergeLinks(t: Table, leaf: nat, src: seq<Word>)
    requires Inv(t) && leaf < 64 && |src| == 64 && UnionNonEmpty(t, leaf, src)
    ensures LinksExact(OrMergeRegion(t, leaf, src))
  {
    MergeMasks(t, leaf, src);
    RetiredMask(t.classWords[t.hdr[leaf].bound], leaf);
    hide OrRange, NonZeroMask, MasksExact, Or, Mask, Bit;
  }

  /** A merge adds the region's slots to the class the leaf is bound to. */
  lemma MergeEffect(t: Table, leaf: nat, src: seq<Word>)
    requires Inv(t) && leaf < 64 && |src| == 64 && UnionNonEmpty(t, leaf, src)
    ensures var t' := OrMergeRegion(t, leaf, src); var c := t.hdr[leaf].bound;
      && Inv(t')
      && Free(t', c) == Free(t, c) + RegionSlots(64 * leaf, src)
      && (forall d: nat | d < 8 && d != c :: Free(t', d) == Free(t, d))
      && Bindings(t') == Bindings(t)
  {
    MergeMasks(t, leaf, src);
    MergeLinks(t, leaf, src);
    var t', c := OrMergeRegion(t, leaf, src), t.hdr[leaf].bound;
    SlotsOfOrRange(t.occ, 64 * leaf, src);
    hide OrRange, NonZeroMask, MasksExact, LinksExact, Or, Mask, Bit, Slots;
    FreeFromSlots(t, t', RegionSlots(64 * leaf, src), {});
  }

  /** Exactly the merges with a non-empty union keep the invariant. */
  lemma MergeKeepsInvariantIff(t: Table, leaf: nat, src: seq<Word>)
    requires Inv(t) && leaf < 64 && |src| == 64
    ensures Inv(OrMergeRegion(t, leaf, src)) <==> UnionNonEmpty(t, leaf, src)
  {
    MergeMasks(t, leaf, src);
    if UnionNonEmpty(t, leaf, src) {
      MergeEffect(t, leaf, src);
    } else {
      assert Bit(OrMergeRegion(t, leaf, src).classWords[t.hdr[leaf].bound], leaf);
    }
  }

  /**
    * When an empty merge into an empty leaf shows: `pop` then looks for a word of that leaf, and computes
    * word index 64, one past its words, exactly when the leaf lies below all those that the class has.
    */
  lemma EmptyMergeOverrunsIff(t: Table, leaf: nat, src: seq<Word>)
    requires Inv(t) && leaf < 64 && |src| == 64 && !UnionNonEmpty(t, leaf, src)
    ensures var t', c := OrMergeRegion(t, leaf, src), t.hdr[leaf].bound;
      && t'.classWords[c] != 0
      && var li := TrailingZeros(t'.classWords[c]);
      && li < 64
      && (TrailingZeros(t'.hdr[li].wordsMask) == WORDS_PER_LEAF
          <==> forall x: nat | x < 64 && Bit(t.classWords[c], x) :: leaf < x)
  {
    var t', c := OrMergeRegion(t, leaf, src), t.hdr[leaf].bound;
    MergeMasks(t, leaf, src);
    LowestOfUnion(t.classWords[c], leaf);
    hide OrRange, NonZeroMask, MasksExact, Or, Mask;
    var li := TrailingZeros(t'.classWords[c]);
    assert !Bit(t.classWords[c], leaf);
    assert li == leaf || Bit(t.classWords[c], li);
    ZeroOrBit(t'.hdr[li].wordsMask);
  }

  /** Remote merge is bulk retire: exactly the state of one retire per slot, in any order. */
  lemma MergeIsBulkRetire(t: Table, leaf: nat, src: seq<Word>, offs: seq<nat>)
    requires Inv(t) && leaf < 64 && |src| == 64 && UnionNonEmpty(t, leaf, src)
    requires Elements(offs) == RegionSlots(64 * leaf, src)
    ensures InSegment(offs)
    ensures OrMergeRegion(t, leaf, src) == RetireMany(t, t.hdr[leaf].bound, offs)
  {
    hide MasksExact, LinksExact, Retire, Bit;
    var c := t.hdr[leaf].bound;
    forall i | 0 <= i < |offs|
      ensures offs[i] / 4096 == leaf && offs[i] < 262144
    {
      assert offs[i] in Elements(offs);
    }
    MergeEffect(t, leaf, src);
    RetireManyEffect(t, c, offs);
    BindSame(Bindings(t), c, offs);
    Canonical(OrMergeRegion(t, leaf, src), RetireMany(t, c, offs));
  }
}
