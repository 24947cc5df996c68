/** Candidate B2 updated in place. */
module LeafTableFast {
  import opened Words
  import opened Bitmaps
  import opened FreeSets
  import opened FastTable
  import opened FastLaws

  class LeafTableFast {
    const occ: array<Word>
    const leafHdr: array<LeafHdrFast>
    const classWords: array<Word>

    predicate Valid() {
      occ.Length == 4096 && leafHdr.Length == 64 && classWords.Length == 8 && occ != classWords
    }

    /** The contents as a value. */
    function State(): (t: Table)
      requires Valid()
      reads occ, leafHdr, classWords
      ensures Shape(t)
    {
      Table(occ[..], leafHdr[..], classWords[..])
    }

    constructor ()
      ensures Valid() && fresh(occ) && fresh(leafHdr) && fresh(classWords)
      ensures State() == Empty()
    {
      occ := new Word[4096](_ => 0);
      leafHdr := new LeafHdrFast[64](_ => LeafHdrFast(0, 0));
      classWords := new Word[8](_ => 0);
    }

    /** Priming: it keeps the bookkeeping, and every free set, exactly when the leaf takes slots of the class. */
    method SetLeafClass(leaf: nat, c: nat)
      requires Valid() && leaf < 64 && c < 8
      modifies leafHdr
      ensures State() == Prime(old(State()), c, leaf)
      ensures Inv(old(State())) ==> (Inv(State()) <==> FastTable.Fits(old(State()), c, leaf))
      ensures Inv(old(State())) && Inv(State()) ==> forall d: nat | d < 8 :: Free(State(), d) == Free(old(State()), d)
    {
      ghost var t := State();
      leafHdr[leaf] := leafHdr[leaf].(bound := c);
      assert State() == Prime(t, c, leaf);
      hide Inv;
      if Inv(t) {
        PrimeKeepsInvariantIff(t, c, leaf);
        if FastTable.Fits(t, c, leaf) {
          PrimeEffect(t, c, leaf);
        }
      }
    }

    method Retire(c: nat, off: nat)
      requires Valid() && c < 8 && off < 262144
      modifies occ, leafHdr, classWords
      ensures State() == FastTable.Retire(old(State()), c, off)
    {
      LeafArithmetic(off);
      var leaf := off / LEAF_SLOTS;
      var slot := off % LEAF_SLOTS;
      var w := slot / 64;
      var before := occ[WORDS_PER_LEAF * leaf + w];
      assert slot % 64 == off % 64;
      occ[WORDS_PER_LEAF * leaf + w] := Or(before, Mask(slot % 64));
      if before == 0 {
        var wasEmpty := leafHdr[leaf].wordsMask == 0;
        leafHdr[leaf] := leafHdr[leaf].(wordsMask := Or(leafHdr[leaf].wordsMask, Mask(w)));
        if wasEmpty {
          classWords[c] := Or(classWords[c], Mask(leaf));
          leafHdr[leaf] := leafHdr[leaf].(bound := c);
        }
      }
    }

    method Pop(c: nat) returns (r: Option<nat>)
      requires Valid() && c < 8 && Inv(State())
      modifies occ, leafHdr, classWords
      ensures (State(), r) == FastTable.Pop(old(State()), c)
    {
      hide MasksExact, LinksExact, Bit;
      var cw := classWords[c];
      if cw == 0 {
        return None;
      }
      LinkedLeaf(State(), c);
      var li := TrailingZeros(cw);
      var mask := leafHdr[li].wordsMask;
      var w := TrailingZeros(mask);
      var word := occ[WORDS_PER_LEAF * li + w];
      var slot := 64 * w + TrailingZeros(word);
      var word0 := ClearLowest(word);
      occ[WORDS_PER_LEAF * li + w] := word0;
      if word0 == 0 {
        leafHdr[li] := leafHdr[li].(wordsMask := AndNot(leafHdr[li].wordsMask, Mask(w)));
        if leafHdr[li].wordsMask == 0 {
          classWords[c] := AndNot(classWords[c], Mask(li));
        }
      }
      return Some(LEAF_SLOTS * li + slot);
    }

    /** The interface's own drain: `n` pops, stopping at the first `None`. */
    method DrainInto(c: nat, buf: seq<nat>, n: nat) returns (out: seq<nat>)
      requires Valid() && c < 8 && Inv(State())
      modifies occ, leafHdr, classWords
      ensures State() == PopMany(old(State()), c, n).0
      ensures out == buf + PopMany(old(State()), c, n).1
    {
      hide FastTable.Pop, MasksExact, LinksExact;
      out := buf;
      for i := 0 to n
        invariant Inv(State())
        invariant PopMany(State(), c, n - i).0 == PopMany(old(State()), c, n).0
        invariant out + PopMany(State(), c, n - i).1 == buf + PopMany(old(State()), c, n).1
      {
        PopEffect(State(), c);
        ghost var t := State();
        var r := Pop(c);
        assert PopMany(t, c, n - i) ==
          if r == None then (State(), [])
          else (PopMany(State(), c, n - i - 1).0, [r.value] + PopMany(State(), c, n - i - 1).1);
        match r
        case None =>
          assert out + [] == out;
          return;
        case Some(off) =>
          assert out + ([off] + PopMany(State(), c, n - i - 1).1) == (out + [off]) + PopMany(State(), c, n - i - 1).1;
          out := out + [off];
      }
      assert out + [] == out;
    }

    /** The interface's own flush: one retire per offset. */
    method FlushRun(c: nat, offs: seq<nat>)
      requires Valid() && c < 8 && InSegment(offs)
      modifies occ, leafHdr, classWords
      ensures State() == RetireMany(old(State()), c, offs)
    {
      for i := 0 to |offs|
        invariant RetireMany(State(), c, offs[i..]) == RetireMany(old(State()), c, offs)
      {
        Retire(c, offs[i]);
        assert offs[i..][1..] == offs[i + 1..];
      }
    }

    /** Word-wise OR of a region; the answer is the number of slots in the region. */
    method OrMergeRegion(leaf: nat, src: seq<Word>) returns (acc: nat)
      requires Valid() && leaf < 64 && |src| == 64 && leafHdr[leaf].bound < 8
      modifies occ, leafHdr, classWords
      ensures State() == FastTable.OrMergeRegion(old(State()), leaf, src)
      ensures acc == |RegionSlots(64 * leaf, src)|
    {
      hide Or, PopCount, OrRange, Mask;
      var c := leafHdr[leaf].bound;
      acc := 0;
      var mask: Word := 0;
      ghost var words := occ[..];
      OrRangeOfNone(words, 64 * leaf, src);
      for w := 0 to 64
        invariant occ[..] == OrRange(words, 64 * leaf, src, w)
        invariant acc == PopCounts(src, w)
        invariant mask == NonZeroMask(occ[64 * leaf..64 * leaf + w], w)
        invariant leafHdr[..] == old(leafHdr[..]) && classWords[..] == old(classWords[..])
      {
        OrRangeStep(words, 64 * leaf, src, w);
        ghost var prefix := occ[64 * leaf..64 * leaf + w];
        var merged := Or(occ[64 * leaf + w], src[w]);
        occ[64 * leaf + w] := merged;
        acc := acc + PopCount(src[w]);
        NonZeroMaskStep(prefix, merged);
        assert occ[64 * leaf..64 * leaf + w + 1] == prefix + [merged];
        mask := Or(mask, if merged != 0 then Mask(w) else 0);
      }
      leafHdr[leaf] := leafHdr[leaf].(wordsMask := mask);
      classWords[c] := Or(classWords[c], Mask(leaf));
      PopCountsAreSlots(64 * leaf, src, 64);
      assert src[..64] == src;
    }

    /** Free slots of one leaf, recomputed by popcount. */
    method FreeSlotsInLeaf(leaf: nat) returns (n: nat)
      requires Valid() && leaf < 64
      ensures n == |set s | s in Slots(occ[..]) && s / 4096 == leaf|
    {
      n := 0;
      for w := 0 to 64
        invariant n == PopCounts(occ[64 * leaf..64 * leaf + 64], w)
      {
        n := n + PopCount(occ[64 * leaf + w]);
      }
      PopCountsOfLeaf(occ[..], leaf);
    }
  }
}
