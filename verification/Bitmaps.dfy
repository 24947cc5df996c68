/** Flat bitmaps: a sequence of 64-bit words read as a set of slot numbers. */
module Bitmaps {
  import opened Words

  // The geometry of a segment: its slots, and the slots and words of a 64 KiB leaf.
  const SEGMENT_SLOTS: nat := 262144
  const LEAF_SLOTS: nat := 4096
  const WORDS_PER_LEAF: nat := 64

  /** Slot `s` is the bit `s % 64` of word `s / 64`. */
  predicate Has(words: seq<Word>, s: nat) {
    s / 64 < |words| && Bit(words[s / 64], s % 64)
  }

  /** Every slot whose bit is set. */
  function Slots(words: seq<Word>): set<nat> {
    set s: nat | s < 64 * |words| && Has(words, s)
  }

  /** The slots that the bits of word `k` name. */
  function WordSlots(k: nat, bits: Word): set<nat> {
    set s: nat | 64 * k <= s < 64 * k + 64 && Bit(bits, s % 64)
  }

  lemma InSlots(words: seq<Word>, s: nat)
    ensures s in Slots(words) <==> Has(words, s)
  {
  }

  /** `words[k] |= bits` adds exactly the slots that the bits name. */
  lemma SlotsOfOr(words: seq<Word>, k: nat, bits: Word)
    requires k < |words|
    ensures Slots(words[k := Or(words[k], bits)]) == Slots(words) + WordSlots(k, bits)
  {
    forall s: nat | s < 64 * |words|
      ensures Has(words[k := Or(words[k], bits)], s) <==> Has(words, s) || s in WordSlots(k, bits)
    {
    }
  }

  /** `words[k] &= !bits` removes exactly the slots that the bits name. */
  lemma SlotsOfAndNot(words: seq<Word>, k: nat, bits: Word)
    requires k < |words|
    ensures Slots(words[k := AndNot(words[k], bits)]) == Slots(words) - WordSlots(k, bits)
  {
    forall s: nat | s < 64 * |words|
      ensures Has(words[k := AndNot(words[k], bits)], s) <==> Has(words, s) && s !in WordSlots(k, bits)
    {
    }
  }

  /** The lowest bit once bit `b` is set: `b` itself exactly when no bit of the word is below it. */
  lemma LowestOfUnion(w: Word, b: nat)
    requires b < 64
    ensures var w' := Or(w, Mask(b)); var low := TrailingZeros(w');
      && w' != 0 && low < 64
      && (low == b || Bit(w, low))
      && (low == b <==> forall x: nat | x < 64 && Bit(w, x) :: b <= x)
  {
    var w' := Or(w, Mask(b));
    assert Bit(w', b);
    ZeroHasNoBits(b);
    ZeroOrBit(w');
    assert Bit(w', TrailingZeros(w'));
    forall x: nat | x < 64 && Bit(w, x)
      ensures Bit(w', x)
    {
    }
  }

  lemma SlotsOfMask(k: nat, b: nat)
    requires b < 64
    ensures WordSlots(k, Mask(b)) == {64 * k + b}
  {
    forall s: nat | 64 * k <= s < 64 * k + 64
      ensures Bit(Mask(b), s % 64) <==> s == 64 * k + b
    {
    }
  }

  /** Clearing the lowest bit of a word removes that one slot. */
  lemma SlotsOfClearLowest(words: seq<Word>, k: nat)
    requires k < |words| && words[k] != 0
    ensures TrailingZeros(words[k]) < 64
    ensures 64 * k + TrailingZeros(words[k]) in Slots(words)
    ensures Slots(words[k := ClearLowest(words[k])]) == Slots(words) - {64 * k + TrailingZeros(words[k])}
  {
    ClearLowestBit(words[k]);
    forall s: nat | s < 64 * |words|
      ensures Has(words[k := ClearLowest(words[k])], s)
         <==> Has(words, s) && s != 64 * k + TrailingZeros(words[k])
    {
    }
  }

  /** A word is non-zero exactly when one of its slots is set. */
  lemma WordNonZero(words: seq<Word>, k: nat)
    requires k < |words|
    ensures words[k] != 0 <==> exists s: nat :: 64 * k <= s < 64 * k + 64 && Has(words, s)
  {
    if words[k] != 0 {
      SlotsOfClearLowest(words, k);
      assert Has(words, 64 * k + TrailingZeros(words[k]));
    } else {
      forall s: nat | 64 * k <= s < 64 * k + 64
        ensures !Has(words, s)
      {
        ZeroHasNoBits(s % 64);
      }
    }
  }

  /** Bitmaps of one length that name the same slots are the same words. */
  lemma SlotsDetermine(a: seq<Word>, b: seq<Word>)
    requires |a| == |b| && Slots(a) == Slots(b)
    ensures a == b
  {
    forall k: nat | k < |a|
      ensures a[k] == b[k]
    {
      forall i: nat | i < 64
        ensures Bit(a[k], i) <==> Bit(b[k], i)
      {
        var s := 64 * k + i;
        assert s / 64 == k && s % 64 == i;
        assert s in Slots(a) <==> s in Slots(b);
      }
      WordExt(a[k], b[k]);
    }
  }

  /** The first `n` words of `src` OR-ed into `words` from index `base` on. */
  function OrRange(words: seq<Word>, base: nat, src: seq<Word>, n: nat): (r: seq<Word>)
    requires n <= |src| && base + |src| <= |words|
    ensures |r| == |words|
  {
    seq(|words|, k requires 0 <= k < |words| =>
      if base <= k < base + n then Or(words[k], src[k - base]) else words[k])
  }

  /** OR-ing in one more word. */
  lemma OrRangeStep(words: seq<Word>, base: nat, src: seq<Word>, n: nat)
    requires n < |src| && base + |src| <= |words|
    ensures var r := OrRange(words, base, src, n);
      r[base + n] == words[base + n] && r[base + n := Or(words[base + n], src[n])] == OrRange(words, base, src, n + 1)
  {
    hide Or;
  }

  lemma OrRangeOfNone(words: seq<Word>, base: nat, src: seq<Word>)
    requires base + |src| <= |words|
    ensures OrRange(words, base, src, 0) == words
  {
    hide Or;
  }

  /** The mask with bit `w` set exactly for the non-zero words among the first `n`. */
  function NonZeroMask(words: seq<Word>, n: nat): Word
    requires n <= |words| && n <= 64
  {
    if n == 0 then 0
    else Or(NonZeroMask(words, n - 1), if words[n - 1] != 0 then Mask(n - 1) else 0)
  }

  lemma {:induction false} NonZeroMaskPrefix(words: seq<Word>, more: seq<Word>, n: nat)
    requires n <= |words| && n <= 64
    ensures NonZeroMask(words + more, n) == NonZeroMask(words, n)
  {
    if n > 0 {
      NonZeroMaskPrefix(words, more, n - 1);
    }
  }

  /** One more word adds one more bit to the mask. */
  lemma NonZeroMaskStep(words: seq<Word>, word: Word)
    requires |words| < 64
    ensures NonZeroMask(words + [word], |words| + 1)
         == Or(NonZeroMask(words, |words|), if word != 0 then Mask(|words|) else 0)
  {
    NonZeroMaskPrefix(words, [word], |words|);
  }

  lemma {:induction false} BitOfNonZeroMask(words: seq<Word>, n: nat, i: nat)
    requires n <= |words| && n <= 64 && i < 64
    ensures Bit(NonZeroMask(words, n), i) <==> i < n && words[i] != 0
  {
    ZeroHasNoBits(i);
    if n > 0 {
      BitOfNonZeroMask(words, n - 1, i);
    }
  }

  /** The sum of `count_ones` over the first `n` words. */
  function PopCounts(words: seq<Word>, n: nat): nat
    requires n <= |words|
  {
    if n == 0 then 0 else PopCounts(words, n - 1) + PopCount(words[n - 1])
  }

  /** The slots that a run of words names when it starts at word `base`. */
  function RegionSlots(base: nat, src: seq<Word>): set<nat> {
    set s: nat | 64 * base <= s < 64 * (base + |src|) && Bit(src[s / 64 - base], s % 64)
  }

  /** OR-ing a region adds exactly its slots. */
  lemma SlotsOfOrRange(words: seq<Word>, base: nat, src: seq<Word>)
    requires base + |src| <= |words|
    ensures Slots(OrRange(words, base, src, |src|)) == Slots(words) + RegionSlots(base, src)
  {
    var r := OrRange(words, base, src, |src|);
    forall s: nat | s < 64 * |words|
      ensures Has(r, s) <==> Has(words, s) || s in RegionSlots(base, src)
    {
    }
  }

  /** The popcount sum is the number of slots. */
  lemma {:induction false} PopCountsAreSlots(base: nat, src: seq<Word>, n: nat)
    requires n <= |src|
    ensures |RegionSlots(base, src[..n])| == PopCounts(src, n)
  {
    hide RegionSlots, WordSlots, PopCount;
    if n == 0 {
      assert src[..0] == [];
      NoRegion(base);
    } else {
      PopCountsAreSlots(base, src, n - 1);
      RegionSplit(base, src, n);
      CountWordSlots(base + n - 1, src[n - 1]);
    }
  }

  lemma NoRegion(base: nat)
    ensures RegionSlots(base, []) == {}
  {
  }

  lemma RegionSplit(base: nat, src: seq<Word>, n: nat)
    requires 0 < n <= |src|
    ensures RegionSlots(base, src[..n]) == RegionSlots(base, src[..n - 1]) + WordSlots(base + n - 1, src[n - 1])
    ensures RegionSlots(base, src[..n - 1]) !! WordSlots(base + n - 1, src[n - 1])
  {
    hide Bit;
  }

  lemma CountWordSlots(k: nat, w: Word)
    ensures |WordSlots(k, w)| == PopCount(w)
  {
    Shifted(BitSet(w), 64 * k, WordSlots(k, w));
  }

  lemma {:induction false} Shifted(s: set<nat>, d: nat, t: set<nat>)
    requires forall x: nat :: x in s <==> x + d in t
    requires forall y | y in t :: y >= d
    ensures |s| == |t|
  {
    assert forall y | y in t :: y - d in s;
    if s == {} {
      assert t == {};
    } else {
      var x :| x in s;
      Shifted(s - {x}, d, t - {x + d});
    }
  }

  /** The popcounts of a leaf's 64 words count its slots. */
  lemma PopCountsOfLeaf(words: seq<Word>, leaf: nat)
    requires |words| == 4096 && leaf < 64
    ensures PopCounts(words[64 * leaf..64 * leaf + 64], 64) == |set s | s in Slots(words) && s / 4096 == leaf|
  {
    var region := words[64 * leaf..64 * leaf + 64];
    PopCountsAreSlots(64 * leaf, region, 64);
    assert region[..64] == region;
    assert RegionSlots(64 * leaf, region) == set s | s in Slots(words) && s / 4096 == leaf;
  }

  /** Offsets of slots of the segment. */
  predicate InSegment(offs: seq<nat>) {
    forall i | 0 <= i < |offs| :: offs[i] < 262144
  }

  /** A slot's 64 KiB leaf, its word in the leaf, and its flat word and bit. */
  lemma LeafArithmetic(off: nat)
    requires off < 262144
    ensures off / 4096 < 64 && off % 4096 / 64 < 64 && off / 64 < 4096
    ensures 64 * (off / 4096) + off % 4096 / 64 == off / 64 && 64 * (off / 64) + off % 64 == off
  {
  }
}
