/** What candidate B3's operations do to the free sets, and what one operation undoes of another. */
module SubleafLaws {
  import opened Words
  import opened Bitmaps
  import opened FreeSets
  import opened SubleafTable

  /** The free sets of all classes. */
  function Sets(t: Table): Classes
    requires Shape(t)
  {
    seq(49, c requires 0 <= c < 49 => Free(t, c))
  }

  /** Bindings and free sets determine occupancy, headers and class masks. */
  lemma Canonical(a: Table, b: Table)
    requires Inv(a) && Inv(b) && Bindings(a) == Bindings(b)
    requires forall c: nat | c < 49 :: Free(a, c) == Free(b, c)
    ensures a.occ == b.occ && a.hdr == b.hdr && a.classMask == b.classMask
  {
    assert forall sl: nat | sl < 1024 :: a.hdr[sl].bound == Bindings(a)[sl] && b.hdr[sl].bound == Bindings(b)[sl];
    assert a.occ == b.occ by {
      forall s: nat | s < 262144
        ensures Has(a.occ, s) <==> Has(b.occ, s)
      {
        var c := a.hdr[s / 256].bound;
        assert s in Free(a, c) <==> s in Free(b, c);
      }
      SlotsDetermine(a.occ, b.occ);
    }
    forall sl: nat | sl < 1024
      ensures a.hdr[sl] == b.hdr[sl]
    {
      WordExt(a.hdr[sl].wordsMask, b.hdr[sl].wordsMask);
    }
    forall k: nat | k < 784
      ensures a.classMask[k] == b.classMask[k]
    {
      SameMaskWord(a, b, k / 16, k % 16);
    }
  }

  lemma SameMaskWord(a: Table, b: Table, c: nat, wi: nat)
    requires Inv(a) && Inv(b) && a.hdr == b.hdr && c < 49 && wi < 16
    ensures a.classMask[16 * c + wi] == b.classMask[16 * c + wi]
  {
    var x, y := MaskWord(a.classMask, c, wi), MaskWord(b.classMask, c, wi);
    forall i: nat | i < 64
      ensures Bit(x, i) <==> Bit(y, i)
    {
      var sl := 64 * wi + i;
      assert Linked(a, c, sl) <==> Linked(b, c, sl);
    }
    WordExt(x, y);
  }

  /** The cursor that a drain of `n` leaves: "empty" when it ran dry, else the last slot's mask word. */
  function DrainCursor(cursor: nat, issued: seq<nat>, n: nat): nat {
    if |issued| < n then 16 else if issued == [] then cursor else issued[|issued| - 1] / 16384
  }

  /** A drain issues the `n` smallest free slots of the class in order and removes exactly those. */
  lemma {:induction false} PopManyEffect(t: Table, c: nat, n: nat)
    requires Inv(t) && c < 49
    ensures var (t', issued) := PopMany(t, c, n);
      && Inv(t') && Bindings(t') == Bindings(t) && t'.spanRetires == t.spanRetires
      && issued == Smallest(Free(t, c), n)
      && Free(t', c) == Free(t, c) - Elements(issued)
      && (forall d: nat | d < 49 && d != c :: Free(t', d) == Free(t, d))
      && t'.cursor == t.cursor[c := DrainCursor(t.cursor[c], issued, n)]
    decreases n
  {
    hide MasksExact, LinksExact, CursorsLow, Pop, Free, Bindings;
    if n != 0 {
      PopEffect(t, c);
      var (t1, r) := Pop(t, c);
      if r != None {
        PopManyEffect(t1, c, n - 1);
        ElementsOfCons(r.value, PopMany(t1, c, n - 1).1);
      }
    }
  }

  /** `retire` adds one slot to one class, binds its sub-leaf, and lowers the cursor on a new link. */
  lemma RetireEffect(t: Table, c: nat, off: nat)
    requires Inv(t) && c < 49 && off < 262144 && Fits(t, c, off / 256)
    ensures var t' := Retire(t, c, off);
      && Inv(t')
      && Free(t', c) == Free(t, c) + {off}
      && (forall d: nat | d < 49 && d != c :: Free(t', d) == Free(t, d))
      && Bindings(t') == Bindings(t)[off / 256 := c]
      && t'.cursor == (if t.hdr[off / 256].wordsMask == 0 && off / 16384 < t.cursor[c]
                       then t.cursor[c := off / 16384] else t.cursor)
  {
    hide Inv, Bindings, Free, CommitWord, Mask, WordSlots;
    var t1 := if c > LAST_SINGLE_SUBLEAF_CLASS then t.(spanRetires := t.spanRetires + 1) else t;
    SlotArithmetic(off);
    MaskNonZero(off % 64);
    SpanAside(t, t1);
    CommitWordEffect(t1, c, off / 256, off % 256 / 64, Mask(off % 64));
    SlotsOfMask(off / 64, off % 64);
  }

  lemma SlotArithmetic(off: nat)
    requires off < 262144
    ensures off / 256 < 1024 && off % 256 / 64 < 4 && off / 256 / 64 == off / 16384
    ensures 4 * (off / 256) + off % 256 / 64 == off / 64 && 64 * (off / 64) + off % 64 == off
  {
  }

  /** The span counter is no part of the bookkeeping. */
  lemma SpanAside(t: Table, u: Table)
    requires Inv(t) && u == t.(spanRetires := u.spanRetires)
    ensures Inv(u) && Bindings(u) == Bindings(t) && forall d: nat | d < 49 :: Free(u, d) == Free(t, d)
  {
    assert forall c: nat, sl: nat | c < 49 && sl < 1024 :: Linked(u, c, sl) <==> Linked(t, c, sl);
  }

  /** Every offset is in the segment and its sub-leaf takes slots of class `c`. */
  predicate AllFit(t: Table, c: nat, offs: seq<nat>)
    requires Shape(t)
  {
    forall i | 0 <= i < |offs| :: offs[i] < 262144 && Fits(t, c, offs[i] / 256)
  }

  /** The bindings once every offset's sub-leaf is bound to `c`. */
  function Bind(bindings: seq<nat>, c: nat, offs: seq<nat>): seq<nat>
    requires |bindings| == 1024 && InSegment(offs)
    decreases |offs|
  {
    if offs == [] then bindings else Bind(bindings[offs[0] / 256 := c], c, offs[1..])
  }

  /** Retiring a list adds its elements to the class, whatever the order and the repeats. */
  lemma {:induction false} RetireManyEffect(t: Table, c: nat, offs: seq<nat>)
    requires Inv(t) && c < 49 && AllFit(t, c, offs)
    ensures InSegment(offs)
    ensures var t' := RetireMany(t, c, offs);
      && Inv(t')
      && Free(t', c) == Free(t, c) + Elements(offs)
      && (forall d: nat | d < 49 && d != c :: Free(t', d) == Free(t, d))
      && Bindings(t') == Bind(Bindings(t), c, offs)
      && t'.cursor == t.cursor[c := t'.cursor[c]]
    decreases |offs|
  {
    hide MasksExact, LinksExact, CursorsLow, Free, Retire, Bindings;
    if offs != [] {
      var t1 := Retire(t, c, offs[0]);
      RetireEffect(t, c, offs[0]);
      RetireKeepsFits(t, c, offs[0], offs[1..]);
      RetireManyEffect(t1, c, offs[1..]);
      ElementsOfCons(offs[0], offs[1..]);
      assert [offs[0]] + offs[1..] == offs;
    } else {
      assert t.cursor[c := t.cursor[c]] == t.cursor;
    }
  }

  lemma RetireKeepsFits(t: Table, c: nat, off: nat, offs: seq<nat>)
    requires Inv(t) && c < 49 && off < 262144 && Fits(t, c, off / 256) && AllFit(t, c, offs)
    ensures AllFit(Retire(t, c, off), c, offs)
  {
    RetireEffect(t, c, off);
    var t' := Retire(t, c, off);
    assert t'.hdr[off / 256].bound == Bindings(t')[off / 256];
  }

  /** Popping `n` slots and retiring what came out restores everything but the cursor of the class. */
  lemma DrainThenFlush(t: Table, c: nat, n: nat)
    requires Inv(t) && c < 49
    ensures var (t1, issued) := PopMany(t, c, n);
      && Inv(t1) && AllFit(t1, c, issued) && InSegment(issued)
      && var t2 := RetireMany(t1, c, issued);
      && Inv(t2)
      && t2 == t.(cursor := t.cursor[c := t2.cursor[c]], spanRetires := t2.spanRetires)
  {
    hide MasksExact, LinksExact, CursorsLow, PopMany;
    var (t1, issued) := PopMany(t, c, n);
    PopManyEffect(t, c, n);
    IssuedFits(t, c, n);
    RetireManyEffect(t1, c, issued);
    BindSame(Bindings(t1), c, issued);
    hide Free, Bindings;
    Canonical(t, RetireMany(t1, c, issued));
  }

  /** What a drain issued may go back where it came from. */
  lemma IssuedFits(t: Table, c: nat, n: nat)
    requires Inv(t) && c < 49
    ensures var (t1, issued) := PopMany(t, c, n);
      && Shape(t1) && AllFit(t1, c, issued) && Elements(issued) <= Free(t, c)
      && forall i | 0 <= i < |issued| :: issued[i] < 262144 && Bindings(t1)[issued[i] / 256] == c
  {
    hide MasksExact, LinksExact, CursorsLow, PopMany;
    var (t1, issued) := PopMany(t, c, n);
    PopManyEffect(t, c, n);
    SmallestAreSmallest(Free(t, c), n);
    forall i | 0 <= i < |issued|
      ensures issued[i] < 262144 && t1.hdr[issued[i] / 256].bound == c
    {
      var sl := issued[i] / 256;
      assert issued[i] in Free(t, c);
      assert t1.hdr[sl].bound == Bindings(t1)[sl] && t.hdr[sl].bound == Bindings(t)[sl];
    }
  }

  lemma {:induction false} BindSame(bindings: seq<nat>, c: nat, offs: seq<nat>)
    requires |bindings| == 1024 && InSegment(offs)
    requires forall i | 0 <= i < |offs| :: bindings[offs[i] / 256] == c
    ensures Bind(bindings, c, offs) == bindings
    decreases |offs|
  {
    if offs != [] {
      assert bindings[offs[0] / 256 := c] == bindings;
      BindSame(bindings, c, offs[1..]);
    }
  }

  /** Exactly the primings of an empty sub-leaf, or to the class it has already, keep the invariant. */
  lemma PrimeKeepsInvariantIff(t: Table, c: nat, sl: nat)
    requires Inv(t) && c < 49 && sl < 1024
    ensures Inv(Prime(t, c, sl)) <==> Fits(t, c, sl)
  {
    var t' := Prime(t, c, sl);
    assert forall d: nat, x: nat | d < 49 && x < 1024 :: Linked(t', d, x) <==> Linked(t, d, x);
    if !Fits(t, c, sl) {
      assert Linked(t, t.hdr[sl].bound, sl);
    }
  }

  /** Such a priming rebinds the sub-leaf and leaves every free set and cursor alone. */
  lemma PrimeEffect(t: Table, c: nat, sl: nat)
    requires Inv(t) && c < 49 && sl < 1024 && Fits(t, c, sl)
    ensures var t' := Prime(t, c, sl);
      && Inv(t') && Bindings(t') == Bindings(t)[sl := c] && t'.cursor == t.cursor
      && forall d: nat | d < 49 :: Free(t', d) == Free(t, d)
  {
    PrimeKeepsInvariantIff(t, c, sl);
    EmptySubleaf(t, sl);
  }

  /** The union of a sub-leaf's words and a source region has a bit. */
  predicate UnionNonEmpty(t: Table, sl: nat, src: seq<Word>)
    requires Shape(t) && sl < 1024
  {
    t.hdr[sl].wordsMask != 0 || exists w :: 0 <= w < |src| && src[w] != 0
  }

  lemma MergeMasksExact(t: Table, sl: nat, src: seq<Word>)
    requires WellFormed(t) && sl < 1024 && |src| == 4
    ensures MasksExact(OrMergeRegion(t, sl, src))
  {
    hide Or, TrailingZeros;
    var t' := OrMergeRegion(t, sl, src);
    forall i: nat | i < 64
      ensures Bit(t'.hdr[sl].wordsMask, i) <==> i < 4 && t'.occ[4 * sl + i] != 0
    {
      BitOfNonZeroMask(t'.occ[4 * sl..4 * sl + 4], 4, i);
    }
  }

  /** The merged sub-leaf is empty exactly when it and the source were. */
  lemma MergeMasks(t: Table, sl: nat, src: seq<Word>)
    requires WellFormed(t) && sl < 1024 && |src| == 4
    ensures MasksExact(OrMergeRegion(t, sl, src))
    ensures OrMergeRegion(t, sl, src).hdr[sl].wordsMask != 0 <==> UnionNonEmpty(t, sl, src)
  {
    MergeMasksExact(t, sl, src);
    hide Or, TrailingZeros, LinksExact, CursorsLow, Bit;
    var t' := OrMergeRegion(t, sl, src);
    assert t'.occ == OrRange(t.occ, 4 * sl, src, 4);
    forall w: nat | w < 4
      ensures t'.occ[4 * sl + w] == 0 <==> t.occ[4 * sl + w] == 0 && src[w] == 0
    {
      OrIsZero(t.occ[4 * sl + w], src[w]);
    }
    AnyWord(t', sl);
    AnyWord(t, sl);
  }

  /** A sub-leaf's words mask is non-zero exactly when one of its four words is. */
  lemma AnyWord(t: Table, sl: nat)
    requires Shape(t) && MasksExact(t) && sl < 1024
    ensures t.hdr[sl].wordsMask != 0 <==>
      t.occ[4 * sl] != 0 || t.occ[4 * sl + 1] != 0 || t.occ[4 * sl + 2] != 0 || t.occ[4 * sl + 3] != 0
  {
    var mask := t.hdr[sl].wordsMask;
    ZeroOrBit(mask);
    assert Bit(mask, 0) <==> t.occ[4 * sl + 0] != 0;
    assert Bit(mask, 1) <==> t.occ[4 * sl + 1] != 0;
    assert Bit(mask, 2) <==> t.occ[4 * sl + 2] != 0;
    assert Bit(mask, 3) <==> t.occ[4 * sl + 3] != 0;
  }

  /** A merge adds the region's slots to the class the sub-leaf is bound to. */
  lemma MergeEffect(t: Table, sl: nat, src: seq<Word>)
    requires Inv(t) && sl < 1024 && |src| == 4 && UnionNonEmpty(t, sl, src)
    ensures var t' := OrMergeRegion(t, sl, src); var c := t.hdr[sl].bound;
      && Inv(t')
      && Free(t', c) == Free(t, c) + RegionSlots(4 * sl, src)
      && (forall d: nat | d < 49 && d != c :: Free(t', d) == Free(t, d))
      && Bindings(t') == Bindings(t)
      && t'.cursor == (if t.hdr[sl].wordsMask == 0 && sl / 64 < t.cursor[c] then t.cursor[c := sl / 64] else t.cursor)
  {
    hide Or, OrRange, NonZeroMask, Bit, Free;
    var t' := OrMergeRegion(t, sl, src);
    var c := t.hdr[sl].bound;
    MergeMasks(t, sl, src);
    var t1 := t.(occ := t'.occ, hdr := t'.hdr);
    LinkMasks(t1, c, sl);
    assert forall d: nat, x: nat | d < 49 && x < 1024 :: Linked(t1, d, x) <==> Linked(t, d, x);
    SlotsOfOrRange(t.occ, 4 * sl, src);
    FreeAfterAddition(t, t', c, RegionSlots(4 * sl, src));
  }

  lemma FreeAfterAddition(t: Table, t': Table, c: nat, added: set<nat>)
    requires Shape(t) && Shape(t') && Bindings(t') == Bindings(t)
    requires Slots(t'.occ) == Slots(t.occ) + added
    requires forall s | s in added :: s < 262144 && t.hdr[s / 256].bound == c
    ensures Free(t', c) == Free(t, c) + added
    ensures forall d: nat | d < 49 && d != c :: Free(t', d) == Free(t, d)
  {
    assert forall s: nat | s < 1024 :: t'.hdr[s].bound == Bindings(t')[s] && t.hdr[s].bound == Bindings(t)[s];
    forall s: nat | s < 262144
      ensures Has(t'.occ, s) <==> Has(t.occ, s) || s in added
    {
      InSlots(t.occ, s);
      InSlots(t'.occ, s);
    }
  }

  /** Exactly the merges with a non-empty union keep the invariant: the others link an empty sub-leaf. */
  lemma MergeKeepsInvariantIff(t: Table, sl: nat, src: seq<Word>)
    requires Inv(t) && sl < 1024 && |src| == 4
    ensures Inv(OrMergeRegion(t, sl, src)) <==> UnionNonEmpty(t, sl, src)
  {
    MergeMasks(t, sl, src);
    if UnionNonEmpty(t, sl, src) {
      MergeEffect(t, sl, src);
    } else {
      var t' := OrMergeRegion(t, sl, src);
      var c := t.hdr[sl].bound;
      LinkMasks(t.(occ := t'.occ, hdr := t'.hdr), c, sl);
      assert Linked(t', c, sl);
    }
  }

  /** Exactly the retires into an empty sub-leaf or one of the same class keep the invariant. */
  lemma RetireKeepsInvariantIff(t: Table, c: nat, off: nat)
    requires Inv(t) && c < 49 && off < 262144
    ensures Inv(Retire(t, c, off)) <==> Fits(t, c, off / 256)
  {
    var sl := off / 256;
    if Fits(t, c, sl) {
      RetireEffect(t, c, off);
    } else {
      var t' := Retire(t, c, off);
      var t1 := if c > LAST_SINGLE_SUBLEAF_CLASS then t.(spanRetires := t.spanRetires + 1) else t;
      LinkMasks(t1.(occ := t'.occ, hdr := t'.hdr), c, sl);
      assert Linked(t', c, sl) && t'.hdr[sl].bound != c;
    }
  }

  /** Only the first retire into an empty sub-leaf can lower the cursor. */
  lemma {:induction false} RetireManyCursor(t: Table, c: nat, sl: nat, offs: seq<nat>)
    requires Inv(t) && c < 49 && sl < 1024 && AllFit(t, c, offs)
    requires forall i | 0 <= i < |offs| :: offs[i] / 256 == sl
    ensures InSegment(offs)
    ensures RetireMany(t, c, offs).cursor ==
      (if offs != [] && t.hdr[sl].wordsMask == 0 && sl / 64 < t.cursor[c] then t.cursor[c := sl / 64] else t.cursor)
    decreases |offs|
  {
    if offs != [] {
      var t1 := Retire(t, c, offs[0]);
      RetireEffect(t, c, offs[0]);
      RetireKeepsFits(t, c, offs[0], offs[1..]);
      hide Retire, MasksExact, LinksExact, CursorsLow;
      SlotArithmetic(offs[0]);
      assert offs[0] in Free(t1, c);
      EmptySubleaf(t1, sl);
      RetireManyCursor(t1, c, sl, offs[1..]);
    }
  }

  /**
    * Remote merge is bulk retire: one merge ends in the state that retiring the region's slots one by
    * one reaches, in any order and with any repeats, span counter aside.
    */
  lemma MergeIsBulkRetire(t: Table, sl: nat, src: seq<Word>, offs: seq<nat>)
    requires Inv(t) && sl < 1024 && |src| == 4 && UnionNonEmpty(t, sl, src)
    requires Elements(offs) == RegionSlots(4 * sl, src)
    ensures InSegment(offs)
    ensures OrMergeRegion(t, sl, src)
         == RetireMany(t, t.hdr[sl].bound, offs).(spanRetires := t.spanRetires)
  {
    hide MasksExact, LinksExact, CursorsLow, Retire, Bit, OrMergeRegion;
    var c := t.hdr[sl].bound;
    RegionInSubleaf(t, sl, src, offs);
    var a, b := OrMergeRegion(t, sl, src), RetireMany(t, c, offs);
    MergeEffect(t, sl, src);
    RetireManyEffect(t, c, offs);
    RetireManyCursor(t, c, sl, offs);
    BindSame(Bindings(t), c, offs);
    hide Free, Bindings;
    Canonical(a, b);
    assert a.spanRetires == t.spanRetires by { MergeSpan(t, sl, src); }
  }

  lemma MergeSpan(t: Table, sl: nat, src: seq<Word>)
    requires Inv(t) && sl < 1024 && |src| == 4
    ensures OrMergeRegion(t, sl, src).spanRetires == t.spanRetires
  {
  }

  lemma RegionInSubleaf(t: Table, sl: nat, src: seq<Word>, offs: seq<nat>)
    requires Inv(t) && sl < 1024 && |src| == 4 && UnionNonEmpty(t, sl, src)
    requires Elements(offs) == RegionSlots(4 * sl, src)
    ensures forall i | 0 <= i < |offs| :: offs[i] / 256 == sl && offs[i] < 262144
    ensures offs == [] ==> t.hdr[sl].wordsMask != 0
  {
    hide MasksExact, LinksExact, CursorsLow;
    forall i | 0 <= i < |offs|
      ensures offs[i] / 256 == sl && offs[i] < 262144
    {
      assert offs[i] in Elements(offs);
    }
    if t.hdr[sl].wordsMask == 0 {
      var w :| 0 <= w < 4 && src[w] != 0;
      ZeroOrBit(src[w]);
      assert 64 * (4 * sl + w) + TrailingZeros(src[w]) in RegionSlots(4 * sl, src);
    }
  }

  /** Under the invariant a linked sub-leaf is never empty: the stale-link branch of `pop` is dead. */
  lemma NoStaleLink(t: Table, c: nat)
    requires Inv(t) && c < 49
    ensures var found := FirstSubleaf(t, c).1;
      found.Some? ==> found.value < 1024 && t.hdr[found.value].wordsMask != 0 && t.hdr[found.value].bound == c
  {
    FirstSubleafEffect(t, c);
  }

  /** An empty merge into an empty sub-leaf changes no free set, but links the sub-leaf. */
  lemma EmptyMergeEffect(t: Table, sl: nat, src: seq<Word>)
    requires WellFormed(t) && sl < 1024 && |src| == 4 && !UnionNonEmpty(t, sl, src)
    ensures var t' := OrMergeRegion(t, sl, src); var c := t.hdr[sl].bound;
      && WellFormed(t') && Free(t', c) == Free(t, c) && Bindings(t') == Bindings(t)
      && (forall x: nat | x < 1024 :: t'.hdr[x].wordsMask == t.hdr[x].wordsMask)
      && forall d: nat, x: nat | d < 49 && x < 1024 :: Linked(t', d, x) <==> Linked(t, d, x) || (d == c && x == sl)
  {
    hide Or, OrRange, NonZeroMask, Bit;
    var t', c := OrMergeRegion(t, sl, src), t.hdr[sl].bound;
    MergeMasks(t, sl, src);
    var t1 := t.(occ := t'.occ, hdr := t'.hdr);
    LinkMasks(t1, c, sl);
    assert forall d: nat, x: nat | d < 49 && x < 1024 :: Linked(t1, d, x) <==> Linked(t, d, x);
    SlotsOfOrRange(t.occ, 4 * sl, src);
    assert RegionSlots(4 * sl, src) == {} by {
      ZeroOrBit(0);
    }
    FreeAfterAddition(t, t', c, {});
  }

  /**
    * The stale branch is live without the invariant. After an empty merge into an empty sub-leaf, `pop`
    * answers `None` exactly when that sub-leaf lies below all those that the class has, whether the class
    * has free slots or not.
    */
  lemma EmptyMergePopsNoneIff(t: Table, sl: nat, src: seq<Word>)
    requires Inv(t) && sl < 1024 && |src| == 4 && !UnionNonEmpty(t, sl, src)
    ensures var t' := OrMergeRegion(t, sl, src); var c := t.hdr[sl].bound;
      && WellFormed(t') && Free(t', c) == Free(t, c)
      && (Pop(t', c).1 == None <==> forall x: nat | x < 1024 && Linked(t, c, x) :: sl < x)
  {
    hide Or, OrRange, NonZeroMask, Bit, Free, Bindings, OrMergeRegion, MasksExact, CursorsLow;
    var t', c := OrMergeRegion(t, sl, src), t.hdr[sl].bound;
    EmptyMergeEffect(t, sl, src);
    FirstSubleafEffect(t', c);
    assert Linked(t', c, sl) && !Linked(t, c, sl);
    var found := FirstSubleaf(t', c).1.value;
    assert found == sl || Linked(t, c, found);
    hide FirstSubleaf;
  }

  /** On a fresh table: one slot retired, one empty merge below it, and `pop` denies the slot. */
  lemma EmptyMergeLosesAPop()
    ensures var t := Retire(Empty(), 0, 256);
      && Inv(t) && !UnionNonEmpty(t, 0, [0, 0, 0, 0])
      && var t' := OrMergeRegion(t, 0, [0, 0, 0, 0]);
      && WellFormed(t') && Free(t', 0) == {256} && Pop(t', 0).1 == None
  {
    hide MasksExact, LinksExact, CursorsLow, Retire, OrMergeRegion, Pop, Free, Bindings, Linked;
    EmptyIsValid();
    OtherHeader();
    RetireEffect(Empty(), 0, 256);
    var t := Retire(Empty(), 0, 256);
    EmptyMergePopsNoneIff(t, 0, [0, 0, 0, 0]);
    LinkedAbove(t);
  }

  lemma LinkedAbove(t: Table)
    requires Shape(t) && LinksExact(t) && t.hdr[0].wordsMask == 0
    ensures forall x: nat | x < 1024 && Linked(t, 0, x) :: 0 < x
  {
    hide Linked;
  }

  lemma OtherHeader()
    ensures Shape(Empty()) && Fits(Empty(), 0, 1)
    ensures Shape(Retire(Empty(), 0, 256)) && Retire(Empty(), 0, 256).hdr[0] == SubLeafHdr(0, 0)
  {
  }

  /**
    * A drain into a buffer that already holds `len` offsets counts them against `n`; the interface's
    * own drain does not. They issue the same offsets exactly when the buffer was empty or the class
    * holds no more than the smaller budget.
    */
  lemma BufferedDrainAgreesIff(t: Table, c: nat, len: nat, n: nat)
    requires Inv(t) && c < 49
    ensures PopMany(t, c, Budget(len, n)).1 == PopMany(t, c, n).1
       <==> len == 0 || n == 0 || |Free(t, c)| <= Budget(len, n)
  {
    var s, b := Free(t, c), Budget(len, n);
    PopManyEffect(t, c, b);
    PopManyEffect(t, c, n);
    SmallestAreSmallest(s, b);
    SmallestAreSmallest(s, n);
    if |s| <= b {
      SmallestOfAll(s, b);
      SmallestOfAll(s, n);
    }
  }

  /** On a fresh table with one slot retired: asking for one with one already in the buffer issues nothing. */
  lemma BufferedDrainFallsShort()
    ensures var t := Retire(Empty(), 0, 256);
      Inv(t) && PopMany(t, 0, Budget(1, 1)).1 == [] && PopMany(t, 0, 1).1 == [256]
  {
    EmptyIsValid();
    RetireEffect(Empty(), 0, 256);
    var t := Retire(Empty(), 0, 256);
    PopManyEffect(t, 0, 1);
    assert Free(t, 0) == {256};
    SmallestAreSmallest({256}, 1);
  }
}
