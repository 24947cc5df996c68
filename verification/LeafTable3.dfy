/** Candidate B3 updated in place, with its word-at-a-time batch operations. */
module LeafTable3 {
  import opened Words
  import opened Bitmaps
  import opened FreeSets
  import opened SubleafTable
  import opened SubleafDrain
  import SubleafLaws

  const USIZE_MAX: nat := 0xFFFF_FFFF_FFFF_FFFF

  /** A cursor that sets `links` new bits of its class's mask falls by `lowered`: at most 16 for each. */
  predicate Lowers(before: nat, after: nat, links: nat, lowered: nat) {
    after + lowered == before && (before <= 16 ==> lowered <= 16 * links)
  }

  class LeafTable3 {
    const occ: array<Word>
    const subHdr: array<SubLeafHdr>
    const classMask: array<Word>
    const classCursor: array<nat>
    var spanRetires: nat

    /** The arrays have the segment's sizes and do not overlap. */
    predicate Valid() {
      && occ.Length == 4096 && subHdr.Length == 1024
      && classMask.Length == 784 && classCursor.Length == 49
      && occ != classMask
    }

    /** The contents as a value. */
    function State(): (t: Table)
      requires Valid()
      reads this, occ, subHdr, classMask, classCursor
      ensures Shape(t)
    {
      Table(occ[..], subHdr[..], classMask[..], classCursor[..], spanRetires)
    }

    constructor ()
      ensures Valid() && fresh(occ) && fresh(subHdr) && fresh(classMask) && fresh(classCursor)
      ensures State() == Empty()
    {
      occ := new Word[4096](_ => 0);
      subHdr := new SubLeafHdr[1024](_ => SubLeafHdr(0, 0));
      classMask := new Word[784](_ => 0);
      classCursor := new nat[49](_ => 16);
      spanRetires := 0;
    }

    /** `links` counts the mask bit if it is new, `lowered` how far the cursor falls for it. */
    method LinkSubleaf(c: nat, sl: nat) returns (ghost links: nat, ghost lowered: nat)
      requires Valid() && c < 49 && sl < 1024
      modifies classMask, classCursor
      ensures State() == SubleafTable.LinkSubleaf(old(State()), c, sl)
      ensures links == (if Linked(old(State()), c, sl) then 0 else 1)
      ensures Lowers(old(classCursor[c]), classCursor[c], links, lowered)
    {
      links, lowered := 0, 0;
      var wi := sl / 64;
      var word := classMask[16 * c + wi];
      if !Bit(word, sl % 64) {
        links := 1;
        classMask[16 * c + wi] := Or(word, Mask(sl % 64));
        if wi < classCursor[c] {
          lowered := classCursor[c] - wi;
          classCursor[c] := wi;
        }
      }
    }

    /** `skipped` counts the mask words that the loop passed over: exactly how far the cursor rose. */
    method FirstSubleaf(c: nat) returns (sl: Option<nat>, ghost skipped: nat)
      requires Valid() && c < 49 && classCursor[c] <= 16
      modifies classCursor
      ensures (State(), sl) == SubleafTable.FirstSubleaf(old(State()), c)
      ensures classCursor[c] == old(classCursor[c]) + skipped
    {
      var wi := classCursor[c];
      skipped := 0;
      while wi < CLASS_MASK_WORDS
        invariant wi <= 16 && State() == old(State()) && wi == classCursor[c] + skipped
        invariant FirstWord(classMask[..], c, wi) == FirstWord(classMask[..], c, old(classCursor[c]))
      {
        var word := classMask[16 * c + wi];
        if word != 0 {
          classCursor[c] := wi;
          return Some(64 * wi + TrailingZeros(word)), skipped;
        }
        wi := wi + 1;
        skipped := skipped + 1;
      }
      classCursor[c] := CLASS_MASK_WORDS;
      return None, skipped;
    }

    method UnlinkSubleaf(c: nat, sl: nat)
      requires Valid() && c < 49 && sl < 1024
      modifies classMask
      ensures State() == SubleafTable.UnlinkSubleaf(old(State()), c, sl)
    {
      var k := 16 * c + sl / 64;
      classMask[k] := AndNot(classMask[k], Mask(sl % 64));
    }

    method CommitWord(c: nat, sl: nat, w: nat, bits: Word) returns (ghost links: nat, ghost lowered: nat)
      requires Valid() && c < 49 && sl < 1024 && w < 4
      modifies occ, subHdr, classMask, classCursor
      ensures State() == SubleafTable.CommitWord(old(State()), c, sl, w, bits)
      ensures Lowers(old(classCursor[c]), classCursor[c], links, lowered)
    {
      var before := occ[4 * sl + w];
      occ[4 * sl + w] := Or(before, bits);
      if before == 0 {
        var wasEmpty := subHdr[sl].wordsMask == 0;
        subHdr[sl] := subHdr[sl].(wordsMask := Or(subHdr[sl].wordsMask, Mask(w)));
        if wasEmpty {
          subHdr[sl] := subHdr[sl].(bound := c);
        }
      }
      links, lowered := LinkSubleaf(c, sl);
    }

    method Retire(c: nat, off: nat) returns (ghost links: nat, ghost lowered: nat)
      requires Valid() && c < 49 && off < 262144
      modifies this, occ, subHdr, classMask, classCursor
      ensures State() == SubleafTable.Retire(old(State()), c, off)
      ensures Lowers(old(classCursor[c]), classCursor[c], links, lowered)
    {
      hide SubleafTable.CommitWord, Mask;
      if c > LAST_SINGLE_SUBLEAF_CLASS {
        spanRetires := spanRetires + 1;
      }
      var sl := off / SUBLEAF_SLOTS;
      var slot := off % SUBLEAF_SLOTS;
      links, lowered := CommitWord(c, sl, slot / 64, Mask(slot % 64));
    }

    /** Store what is left of a word; the shared tail of `pop` and of a drained word. */
    method StoreRest(c: nat, sl: nat, w: nat, rest: Word)
      requires Valid() && c < 49 && sl < 1024 && w < 4
      modifies occ, subHdr, classMask
      ensures State() == SubleafTable.StoreRest(old(State()), c, sl, w, rest)
    {
      occ[4 * sl + w] := rest;
      if rest == 0 {
        subHdr[sl] := subHdr[sl].(wordsMask := AndNot(subHdr[sl].wordsMask, Mask(w)));
        if subHdr[sl].wordsMask == 0 {
          UnlinkSubleaf(c, sl);
        }
      }
    }

    method Pop(c: nat) returns (r: Option<nat>, ghost skipped: nat)
      requires Valid() && c < 49 && WellFormed(State())
      modifies occ, subHdr, classMask, classCursor
      ensures (State(), r) == SubleafTable.Pop(old(State()), c)
      ensures classCursor[c] == old(classCursor[c]) + skipped
    {
      ghost var t := State();
      FirstSubleafEffect(t, c);
      var found;
      found, skipped := FirstSubleaf(c);
      if found == None {
        return None, skipped;
      }
      var sl := found.value;
      var mask := subHdr[sl].wordsMask;
      if mask == 0 {
        UnlinkSubleaf(c, sl);
        return None, skipped;
      }
      LowestWord(t, sl);
      var w := TrailingZeros(mask);
      var word := occ[4 * sl + w];
      var bit := TrailingZeros(word);
      StoreRest(c, sl, w, ClearLowest(word));
      return Some(SUBLEAF_SLOTS * sl + 64 * w + bit), skipped;
    }

    /** Priming: it keeps the bookkeeping, and every free set, exactly when the sub-leaf takes slots of the class. */
    method SetSubleafClass(sl: nat, c: nat)
      requires Valid() && sl < 1024 && c < 49
      modifies subHdr
      ensures State() == Prime(old(State()), c, sl)
      ensures Inv(old(State())) ==> (Inv(State()) <==> SubleafTable.Fits(old(State()), c, sl))
      ensures Inv(old(State())) && Inv(State()) ==> forall d: nat | d < 49 :: Free(State(), d) == Free(old(State()), d)
    {
      ghost var t := State();
      subHdr[sl] := subHdr[sl].(bound := c);
      assert State() == Prime(t, c, sl);
      if Inv(t) {
        SubleafLaws.PrimeKeepsInvariantIff(t, c, sl);
        if SubleafTable.Fits(t, c, sl) {
          SubleafLaws.PrimeEffect(t, c, sl);
        }
      }
    }

    /** Word-wise OR of a region; the answer is the number of slots in the region. */
    method OrMergeRegion(sl: nat, src: seq<Word>) returns (acc: nat, ghost links: nat, ghost lowered: nat)
      requires Valid() && sl < 1024 && |src| == 4 && subHdr[sl].bound < 49
      modifies occ, subHdr, classMask, classCursor
      ensures State() == SubleafTable.OrMergeRegion(old(State()), sl, src)
      ensures acc == |RegionSlots(4 * sl, src)|
      ensures var c := old(subHdr[sl].bound); Lowers(old(classCursor[c]), classCursor[c], links, lowered)
    {
      hide Or, PopCount, OrRange, Mask, SubleafTable.LinkSubleaf;
      var c := subHdr[sl].bound;
      acc := 0;
      var mask: Word := 0;
      ghost var t := State();
      OrRangeOfNone(t.occ, 4 * sl, src);
      for w := 0 to SUBLEAF_WORDS
        invariant occ[..] == OrRange(t.occ, 4 * sl, src, w)
        invariant acc == PopCounts(src, w)
        invariant mask == NonZeroMask(occ[4 * sl..4 * sl + w], w)
        invariant State() == t.(occ := occ[..])
      {
        OrRangeStep(t.occ, 4 * sl, src, w);
        ghost var prefix := occ[4 * sl..4 * sl + w];
        var merged := Or(occ[4 * sl + w], src[w]);
        occ[4 * sl + w] := merged;
        acc := acc + PopCount(src[w]);
        NonZeroMaskStep(prefix, merged);
        assert occ[4 * sl..4 * sl + w + 1] == prefix + [merged];
        mask := Or(mask, if merged != 0 then Mask(w) else 0);
      }
      subHdr[sl] := subHdr[sl].(wordsMask := mask);
      links, lowered := LinkSubleaf(c, sl);
      PopCountsAreSlots(4 * sl, src, 4);
      assert src[..4] == src;
    }

    /** Register-accumulated commits: the same state as one retire per offset, span counter aside. */
    method FlushRun(c: nat, offs: seq<nat>) returns (ghost links: nat, ghost lowered: nat)
      requires Valid() && c < 49 && InSegment(offs)
      modifies occ, subHdr, classMask, classCursor
      ensures State() == RetireMany(old(State()), c, offs).(spanRetires := spanRetires)
      ensures Lowers(old(classCursor[c]), classCursor[c], links, lowered)
    {
      hide Final, SubleafTable.CommitWord, Or, Mask, Bit;
      var curSl: nat, curW: nat := USIZE_MAX, USIZE_MAX;
      var acc: Word := 0;
      ghost var t0 := State();
      ghost var more, fall;
      links, lowered := 0, 0;
      assert offs[0..] == offs;
      for i := 0 to |offs|
        invariant (acc == 0) == (i == 0)
        invariant acc != 0 ==> curSl < 1024 && curW < 4
        invariant Lowers(old(classCursor[c]), classCursor[c], links, lowered)
        invariant Final(t0, c, offs, t0.spanRetires)
               == Final(Pending(State(), c, curSl, curW, acc), c, offs[i..], t0.spanRetires)
      {
        var off := offs[i];
        var sl := off / SUBLEAF_SLOTS;
        var slot := off % SUBLEAF_SLOTS;
        var w := slot / 64;
        assert slot % 64 == off % 64;
        if sl != curSl || w != curW {
          if acc != 0 {
            more, fall := CommitWord(c, curSl, curW, acc);
            links, lowered := links + more, lowered + fall;
            acc := 0;
          }
          curSl := sl;
          curW := w;
        }
        RetireIntoPending(State(), c, sl, w, acc, offs[i..], t0.spanRetires);
        assert offs[i..][1..] == offs[i + 1..];
        acc := Or(acc, Mask(slot % 64));
      }
      assert offs[|offs|..] == [];
      FinalEnd(Pending(State(), c, curSl, curW, acc), c, t0.spanRetires);
      assert Final(t0, c, offs, t0.spanRetires) == RetireMany(t0, c, offs).(spanRetires := t0.spanRetires) by {
        FinalIs(t0, c, offs, t0.spanRetires);
      }
      if acc != 0 {
        more, fall := CommitWord(c, curSl, curW, acc);
        links, lowered := links + more, lowered + fall;
      }
    }

    /**
      * Word-at-a-time drain: the same state and the same offsets as popping one slot at a time past stale
      * links, for as many slots as are missing from `buf` to reach `n`. Under exact bookkeeping it is `n` pops.
      */
    method DrainInto(c: nat, buf: seq<nat>, n: nat) returns (out: seq<nat>, ghost skipped: nat)
      requires Valid() && c < 49 && WellFormed(State())
      modifies occ, subHdr, classMask, classCursor
      ensures State() == TakeMany(old(State()), c, Budget(|buf|, n)).0
      ensures out == buf + TakeMany(old(State()), c, Budget(|buf|, n)).1
      ensures Inv(old(State())) ==>
        State() == PopMany(old(State()), c, Budget(|buf|, n)).0
        && out == buf + PopMany(old(State()), c, Budget(|buf|, n)).1
      ensures classCursor[c] == old(classCursor[c]) + skipped
    {
      hide TakeMany, WellFormed, Draining, AtSubleaf, SubleafTable.FirstSubleaf, SubleafTable.UnlinkSubleaf, Links,
        Inv, PopMany;
      out, skipped := buf, 0;
      ghost var t0, N := State(), Budget(|buf|, n);
      ghost var got: seq<nat> := [];
      if Inv(t0) {
        ManyArePops(t0, c, N);
      }
      DrainStarts(t0, c, N);
      while |out| < n
        invariant out == buf + got && |got| <= N && Draining(t0, c, N, State(), got)
        invariant classCursor[c] == old(classCursor[c]) + skipped
        decreases n - |out|, |Links(State(), c)|
      {
        DrainFinds(t0, c, N, State(), got);
        ghost var more;
        var found;
        found, more := FirstSubleaf(c);
        skipped := skipped + more;
        if found == None {
          return;
        }
        var sl := found.value;
        if subHdr[sl].wordsMask == 0 {
          UnlinkSubleaf(c, sl);
          continue;
        }
        ghost var t, len := State(), |out|;
        ghost var taken;
        DrainingIsWellFormed(t0, c, N, t, got);
        out, taken := DrainSubleaf(c, sl, out, n);
        DrainGoesOn(t0, c, N, t, got, State(), taken);
        got := got + taken;
      }
      DrainEnds(t0, c, N, State(), got);
    }

    /** The inner loop of a drain: word after word of one sub-leaf, until it is empty or `n` slots are out. */
    method DrainSubleaf(c: nat, sl: nat, buf: seq<nat>, n: nat) returns (out: seq<nat>, ghost got: seq<nat>)
      requires Valid() && c < 49 && sl < 1024 && |buf| < n && WellFormed(State()) && AtSubleaf(State(), c, sl)
      modifies occ, subHdr, classMask
      ensures out == buf + got && 0 < |got| <= n - |buf|
      ensures Draining(old(State()), c, n - |buf|, State(), got)
      ensures |out| < n ==> subHdr[sl].wordsMask == 0
    {
      hide WellFormed, Draining, AtSubleaf, DrainWord, SubleafTable.StoreRest, TrailingZeros;
      ghost var t0, N := State(), n - |buf|;
      out, got := buf, [];
      DrainStarts(t0, c, N);
      var mask := subHdr[sl].wordsMask;
      while |out| < n
        invariant out == buf + got && |got| <= N && Draining(t0, c, N, State(), got)
        invariant WellFormed(State()) && AtSubleaf(State(), c, sl) && mask == subHdr[sl].wordsMask
        decreases n - |out|
      {
        var w := TrailingZeros(mask);
        ghost var t := State();
        FirstWordInRange(t, c, sl);
        DrainEmpties(t, c, n - |out|, sl, w);
        ghost var taken := DrainWord(occ[4 * sl + w], 256 * sl + 64 * w, n - |out|).1;
        var word;
        word, out := EmitWord(occ[4 * sl + w], SUBLEAF_SLOTS * sl + 64 * w, out, n - |out|);
        StoreRest(c, sl, w, word);
        DrainGoesOn(t0, c, N, t, got, State(), taken);
        DrainingIsWellFormed(t0, c, N, State(), got + taken);
        got := got + taken;
        if word != 0 {
          return;
        }
        mask := subHdr[sl].wordsMask;
        if mask == 0 {
          break;
        }
      }
    }

    /** Free slots of one 64 KiB leaf, counted over its 16 sub-leaves' words. */
    method FreeSlotsInLeaf(leaf: nat) returns (n: nat)
      requires Valid() && leaf < 64
      ensures n == |set s | s in Slots(occ[..]) && s / 4096 == leaf|
    {
      n := 0;
      for w := 0 to 64
        invariant n == PopCounts(occ[64 * leaf..64 * leaf + 64], w)
      {
        n := n + PopCount(occ[64 * leaf + w]);
      }
      PopCountsOfLeaf(occ[..], leaf);
    }

    /** The 16 sub-leaves' words side by side: bit `i` of the leaf is its slot `i`. */
    method LeafFreeMask(leaf: nat) returns (mask: seq<Word>)
      requires Valid() && leaf < 64
      ensures |mask| == 64 && forall i: nat | i < 4096 :: Has(mask, i) <==> Has(occ[..], 4096 * leaf + i)
    {
      var out := new Word[64](_ => 0);
      for i := 0 to 16
        invariant forall w | 0 <= w < 4 * i :: out[w] == occ[64 * leaf + w]
        invariant occ[..] == old(occ[..])
      {
        for j := 0 to 4
          invariant forall w | 0 <= w < 4 * i + j :: out[w] == occ[64 * leaf + w]
          invariant occ[..] == old(occ[..])
        {
          out[4 * i + j] := occ[4 * (16 * leaf + i) + j];
        }
      }
      mask := out[..];
    }

    /** The class of the leaf's first non-empty sub-leaf. */
    method LeafClass(leaf: nat) returns (r: Option<nat>)
      requires Valid() && leaf < 64
      ensures IsLeafClass(State(), leaf, r)
    {
      var base := 16 * leaf;
      for sl := base to base + 16
        invariant forall i: nat | base <= i < sl :: subHdr[i].wordsMask == 0
      {
        if subHdr[sl].wordsMask != 0 {
          assert State().hdr[sl] == subHdr[sl];
          return Some(subHdr[sl].bound);
        }
      }
      r := None;
    }
  }

  /** The innermost loop of a drain: push the word's slots, lowest first, until it or the budget is spent. */
  method EmitWord(bits: Word, base: nat, buf: seq<nat>, budget: nat) returns (word: Word, out: seq<nat>)
    ensures (word, out) == (DrainWord(bits, base, budget).0, buf + DrainWord(bits, base, budget).1)
  {
    word, out := bits, buf;
    var emitted := 0;
    while word != 0 && emitted < budget
      invariant emitted <= budget
      invariant DrainWord(bits, base, budget).0 == DrainWord(word, base, budget - emitted).0
      invariant buf + DrainWord(bits, base, budget).1 == out + DrainWord(word, base, budget - emitted).1
      decreases budget - emitted
    {
      assert buf + DrainWord(bits, base, budget).1
          == (out + [base + TrailingZeros(word)]) + DrainWord(ClearLowest(word), base, budget - emitted - 1).1;
      out := out + [base + TrailingZeros(word)];
      word := ClearLowest(word);
      emitted := emitted + 1;
    }
    assert out + [] == out;
  }

  /** The state once the register's pending bits are committed. */
  function Pending(t: Table, c: nat, sl: nat, w: nat, acc: Word): (r: Table)
    requires Shape(t) && c < 49 && (acc != 0 ==> sl < 1024 && w < 4)
    ensures Shape(r)
  {
    if acc == 0 then t else SubleafTable.CommitWord(t, c, sl, w, acc)
  }

  /** A retire into the pending word only adds its bit to the register. */
  lemma PendingRetire(t: Table, c: nat, sl: nat, w: nat, acc: Word, off: nat)
    requires Shape(t) && c < 49 && off < 262144
    requires sl == off / 256 && w == off % 256 / 64
    ensures Or(acc, Mask(off % 64)) != 0
    ensures var t1 := SubleafTable.Retire(Pending(t, c, sl, w, acc), c, off);
      t1 == Pending(t, c, sl, w, Or(acc, Mask(off % 64))).(spanRetires := t1.spanRetires)
  {
    var bit := Mask(off % 64);
    OrIsZero(acc, bit);
    MaskNonZero(off % 64);
    if acc != 0 {
      CommitsFuse(t, c, sl, w, acc, bit);
    } else {
      assert Or(0, bit) == bit by { OrZero(bit); }
    }
  }

  /** What is left to do, as a final state with the span counter of `t0`. */
  function Final(t: Table, c: nat, offs: seq<nat>, span: nat): Table
    requires Shape(t) && c < 49 && InSegment(offs)
  {
    RetireMany(t, c, offs).(spanRetires := span)
  }

  lemma FinalIs(t: Table, c: nat, offs: seq<nat>, span: nat)
    requires Shape(t) && c < 49 && InSegment(offs)
    ensures Final(t, c, offs, span) == RetireMany(t, c, offs).(spanRetires := span)
  {
  }

  lemma FinalEnd(t: Table, c: nat, span: nat)
    requires Shape(t) && c < 49
    ensures Final(t, c, [], span) == t.(spanRetires := span)
  {
  }

  lemma RetireIntoPending(t: Table, c: nat, sl: nat, w: nat, acc: Word, offs: seq<nat>, span: nat)
    requires Shape(t) && c < 49 && InSegment(offs) && offs != []
    requires sl == offs[0] / 256 && w == offs[0] % 256 / 64
    ensures Or(acc, Mask(offs[0] % 64)) != 0
    ensures Final(Pending(t, c, sl, w, acc), c, offs, span)
         == Final(Pending(t, c, sl, w, Or(acc, Mask(offs[0] % 64))), c, offs[1..], span)
  {
    PendingRetire(t, c, sl, w, acc, offs[0]);
    var t1 := SubleafTable.Retire(Pending(t, c, sl, w, acc), c, offs[0]);
    var t2 := Pending(t, c, sl, w, Or(acc, Mask(offs[0] % 64)));
    SpanIrrelevant(t2, c, offs[1..], t1.spanRetires, span);
  }
}
