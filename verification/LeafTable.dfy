/** Candidate B updated in place. */
module LeafTable {
  import opened Words
  import opened Bitmaps
  import opened FreeSets
  import opened CountedTable
  import opened CountedLaws

  class LeafTable {
    const occ: array<Word>
    const leafHdr: array<LeafHdr>
    const classWords: array<Word>

    predicate Valid() {
      occ.Length == 4096 && leafHdr.Length == 64 && classWords.Length == 8 && occ != classWords
    }

    /** The contents as a value. */
    function State(): (t: Table)
      requires Valid()
      reads occ, leafHdr, classWords
      ensures Shape(t)
    {
      Table(occ[..], leafHdr[..], classWords[..])
    }

    constructor ()
      ensures Valid() && fresh(occ) && fresh(leafHdr) && fresh(classWords)
      ensures State() == Empty()
    {
      occ := new Word[4096](_ => 0);
      leafHdr := new LeafHdr[64](_ => LeafHdr(0, 0, 0));
      classWords := new Word[8](_ => 0);
    }

    /** Priming: it keeps the bookkeeping, and every free set, exactly when the leaf takes slots of the class. */
    method SetLeafClass(leaf: nat, c: nat)
      requires Valid() && leaf < 64 && c < 8
      modifies leafHdr
      ensures State() == Prime(old(State()), c, leaf)
      ensures Inv(old(State())) ==> (Inv(State()) <==> CountedTable.Fits(old(State()), c, leaf))
      ensures Inv(old(State())) && Inv(State()) ==> forall d: nat | d < 8 :: Free(State(), d) == Free(old(State()), d)
    {
      ghost var t := State();
      leafHdr[leaf] := leafHdr[leaf].(bound := c);
      assert State() == Prime(t, c, leaf);
      hide Inv;
      if Inv(t) {
        PrimeKeepsInvariantIff(t, c, leaf);
        if CountedTable.Fits(t, c, leaf) {
          PrimeEffect(t, c, leaf);
        }
      }
    }

    method Retire(c: nat, off: nat)
      requires Valid() && c < 8 && off < 262144
      modifies occ, leafHdr, classWords
      ensures State() == CountedTable.Retire(old(State()), c, off)
    {
      LeafArithmetic(off);
      var leaf := off / LEAF_SLOTS;
      var slot := off % LEAF_SLOTS;
      var w := slot / 64;
      assert slot % 64 == off % 64;
      occ[WORDS_PER_LEAF * leaf + w] := Or(occ[WORDS_PER_LEAF * leaf + w], Mask(slot % 64));
      var wasEmpty := leafHdr[leaf].freeCount == 0;
      leafHdr[leaf] := leafHdr[leaf].(freeCount := leafHdr[leaf].freeCount + 1);
      if wasEmpty {
        classWords[c] := Or(classWords[c], Mask(leaf));
        leafHdr[leaf] := leafHdr[leaf].(bound := c);
      }
    }

    method Pop(c: nat) returns (r: Option<nat>)
      requires Valid() && c < 8 && WellFormed(State())
      modifies occ, leafHdr, classWords
      ensures (State(), r) == CountedTable.Pop(old(State()), c)
    {
      hide Bit, ClearLowest, Mask, AndNot, Slots;
      ghost var t := State();
      var cw := classWords[c];
      if cw == 0 {
        return None;
      }
      var li := TrailingZeros(cw);
      var start := leafHdr[li].firstHint;
      for i := 0 to WORDS_PER_LEAF
        invariant State() == t && AllZero(t.occ, li, start, i)
      {
        var w := (start + i) % WORDS_PER_LEAF;
        var word := occ[WORDS_PER_LEAF * li + w];
        if word != 0 {
          ScanStopsAt(t.occ, li, start, i);
          WordHasSlot(t, li, w);
          var slot := 64 * w + TrailingZeros(word);
          occ[WORDS_PER_LEAF * li + w] := ClearLowest(word);
          leafHdr[li] := leafHdr[li].(freeCount := leafHdr[li].freeCount - 1);
          leafHdr[li] := leafHdr[li].(firstHint := w);
          if leafHdr[li].freeCount == 0 {
            classWords[c] := AndNot(classWords[c], Mask(li));
          }
          assert State() == TakeFrom(t, c, li, w);
          return Some(LEAF_SLOTS * li + slot);
        }
      }
      return None;
    }

    /** The interface's own drain: `n` pops, stopping at the first `None`. */
    method DrainInto(c: nat, buf: seq<nat>, n: nat) returns (out: seq<nat>)
      requires Valid() && c < 8 && Inv(State())
      modifies occ, leafHdr, classWords
      ensures State() == PopMany(old(State()), c, n).0
      ensures out == buf + PopMany(old(State()), c, n).1
    {
      hide CountedTable.Pop, HintsInRange, CountsExact, LinksExact, WellFormed;
      out := buf;
      for i := 0 to n
        invariant Inv(State())
        invariant PopMany(State(), c, n - i).0 == PopMany(old(State()), c, n).0
        invariant out + PopMany(State(), c, n - i).1 == buf + PopMany(old(State()), c, n).1
      {
        PopEffect(State(), c);
        ghost var t := State();
        var r := Pop(c);
        assert PopMany(t, c, n - i) ==
          if r == None then (State(), [])
          else (PopMany(State(), c, n - i - 1).0, [r.value] + PopMany(State(), c, n - i - 1).1);
        match r
        case None =>
          assert out + [] == out;
          return;
        case Some(off) =>
          assert out + ([off] + PopMany(State(), c, n - i - 1).1) == (out + [off]) + PopMany(State(), c, n - i - 1).1;
          out := out + [off];
      }
      assert out + [] == out;
    }

    /** The interface's own flush: one retire per offset. */
    method FlushRun(c: nat, offs: seq<nat>)
      requires Valid() && c < 8 && InSegment(offs)
      modifies occ, leafHdr, classWords
      ensures State() == RetireMany(old(State()), c, offs)
    {
      for i := 0 to |offs|
        invariant RetireMany(State(), c, offs[i..]) == RetireMany(old(State()), c, offs)
      {
        Retire(c, offs[i]);
        assert offs[i..][1..] == offs[i + 1..];
      }
    }

    /** Word-wise OR of a region; the counter becomes the region's popcount. */
    method OrMergeRegion(leaf: nat, src: seq<Word>)
      requires Valid() && leaf < 64 && |src| == 64 && leafHdr[leaf].bound < 8
      modifies occ, leafHdr, classWords
      ensures State() == CountedTable.OrMergeRegion(old(State()), leaf, src)
    {
      hide Or, PopCount;
      var c := leafHdr[leaf].bound;
      var acc := 0;
      ghost var words := occ[..];
      for w := 0 to WORDS_PER_LEAF
        invariant occ[..] == OrRange(words, 64 * leaf, src, w)
        invariant acc == PopCounts(src, w)
        invariant leafHdr[..] == old(leafHdr[..]) && classWords[..] == old(classWords[..])
      {
        occ[64 * leaf + w] := Or(occ[64 * leaf + w], src[w]);
        acc := acc + PopCount(src[w]);
      }
      leafHdr[leaf] := leafHdr[leaf].(freeCount := acc);
      classWords[c] := Or(classWords[c], Mask(leaf));
    }
  }

  /** The loop's first non-zero word is where the scan stops. */
  lemma ScanStopsAt(occ: seq<Word>, leaf: nat, start: nat, i: nat)
    requires |occ| == 4096 && leaf < 64 && i < 64
    requires AllZero(occ, leaf, start, i) && ScanWord(occ, leaf, start, i) != 0
    ensures Scan(occ, leaf, start) == i
  {
    assert StopsAt(occ, leaf, start, i);
    ScanStops(occ, leaf, start, 64);
  }
}
