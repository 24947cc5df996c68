/**
  * The identity checks from fresh models: the mixed churn, and remote merge in all three geometries. As in
  * `Identity`, `{:induction false}` spares Dafny a search for induction variables among many tables and scripts.
  */
module FreshIdentity {
  import opened Words
  import opened Bitmaps
  import opened FreeSets
  import opened Scripts
  import ListLaws
  import opened Identity

  /** The start of every model: nothing free. */
  lemma FreshModels()
    ensures List.Inv(List.Empty()) && B.Inv(B.Empty()) && B2.Inv(B2.Empty()) && B3.Inv(B3.Empty())
    ensures Body.Inv(Body.Empty()) && Body.View(Body.Empty()) == List.Empty()
    ensures forall c: nat | c < 8 ::
      ListRuns.Sets(List.Empty())[c] == BLaws.Sets(B.Empty())[c] == B2Laws.Sets(B2.Empty())[c] == {}
    ensures forall c: nat | c < 49 :: B3Laws.Sets(B3.Empty())[c] == {}
  {
    List.EmptyIsValid();
    B.EmptyIsValid();
    B2.EmptyIsValid();
    B3.EmptyIsValid();
    Body.EmptyView();
    hide List.Rep;
    List.StacksUnique(List.Empty(), List.EmptyStacks(), ListRuns.StacksOf(List.Empty()));
  }

  lemma FreshAgree()
    ensures Agree(List.Empty(), B.Empty(), B2.Empty(), B3.Empty())
    ensures Body.Inv(Body.Empty()) && Body.View(Body.Empty()) == List.Empty()
    ensures forall c: nat | c < 8 :: ListRuns.Sets(List.Empty())[c] == {}
  {
    FreshModels();
    Lockstep.FreshTables();
    hide ListRuns.Sets, BLaws.Sets, B2Laws.Sets, List.Rep, Lockstep.Same;
    SameLength();
    assert BLaws.Sets(B.Empty()) == ListRuns.Sets(List.Empty());
    assert B2Laws.Sets(B2.Empty()) == ListRuns.Sets(List.Empty());
  }

  lemma SameLength()
    ensures List.Inv(List.Empty()) ==> |ListRuns.Sets(List.Empty())| == 8
    ensures |BLaws.Sets(B.Empty())| == 8 && |B2Laws.Sets(B2.Empty())| == 8
  {
  }

  /** Handing slots back, in any amount, to fresh models leaves them all with the same free sets. */
  lemma FillAgrees(fill: seq<Op>)
    requires List.Inv(List.Empty()) && B.Inv(B.Empty()) && B2.Inv(B2.Empty()) && B3.Inv(B3.Empty())
    requires ListRuns.LegalRun(List.Empty(), fill) && BRuns.LegalRun(B.Empty(), fill)
    requires B2Runs.LegalRun(B2.Empty(), fill) && Plain(fill) && forall i | 0 <= i < |fill| :: Asked(fill[i]) == 0
    ensures B3Runs.LegalRun(B3.Empty(), fill)
    ensures Agree(ListRuns.Tables(List.Empty(), fill)[|fill|], BRuns.Tables(B.Empty(), fill)[|fill|],
                  B2Runs.Tables(B2.Empty(), fill)[|fill|], B3Runs.Tables(B3.Empty(), fill)[|fill|])
  {
    FreshAgree();
    Lockstep.LegalFiner(B2.Empty(), B3.Empty(), fill);
    assert AllMatch(fill, fill);
    hide Agree, ListRuns.LegalRun, BRuns.LegalRun, B2Runs.LegalRun, B3Runs.LegalRun, AllMatch;
    AllFiveAgreeRoundByRound(
      List.Empty(), Body.Empty(), B.Empty(), B2.Empty(), B3.Empty(), fill, fill, fill, fill);
  }

  /**
    * The mixed churn: fill fresh models alike, then let each run any rounds of any classes and batches,
    * flushing back what it was itself given. All five end with the free words that the fill left.
    */
  lemma {:induction false} MixedChurnIdentity(fill: seq<Op>, rounds: seq<(nat, nat)>)
    returns (ops: seq<Op>, opsB: seq<Op>, ops2: seq<Op>, ops3: seq<Op>)
    requires List.Inv(List.Empty()) && B.Inv(B.Empty()) && B2.Inv(B2.Empty()) && B3.Inv(B3.Empty())
    requires Body.Inv(Body.Empty()) && Body.View(Body.Empty()) == List.Empty()
    requires ListRuns.LegalRun(List.Empty(), fill) && BRuns.LegalRun(B.Empty(), fill)
    requires B2Runs.LegalRun(B2.Empty(), fill) && Plain(fill) && forall i | 0 <= i < |fill| :: Asked(fill[i]) == 0
    requires forall i | 0 <= i < |rounds| :: rounds[i].0 < 8
    ensures Rounds(ops) == Rounds(opsB) == Rounds(ops2) == Rounds(ops3) == rounds
    ensures B3Runs.LegalRun(B3.Empty(), fill)
    ensures var list, b := ListRuns.Tables(List.Empty(), fill)[|fill|], BRuns.Tables(B.Empty(), fill)[|fill|];
      var b2, b3 := B2Runs.Tables(B2.Empty(), fill)[|fill|], B3Runs.Tables(B3.Empty(), fill)[|fill|];
      var body := Body.After(Body.Empty(), fill);
      && List.Shape(list) && Body.View(body) == list
      && ListRuns.LegalRun(list, ops) && FlushesBack(ops, ListRuns.Outs(list, ops))
      && BRuns.LegalRun(b, opsB) && FlushesBack(opsB, BRuns.Outs(b, opsB))
      && B2Runs.LegalRun(b2, ops2) && FlushesBack(ops2, B2Runs.Outs(b2, ops2))
      && B3Runs.LegalRun(b3, ops3) && FlushesBack(ops3, B3Runs.Outs(b3, ops3))
      && Body.Outs(body, ops) == ListRuns.Outs(list, ops) && Body.After(body, ops).freeBits == list.freeBits
      && ListRuns.Tables(list, ops)[|ops|].freeBits == list.freeBits
      && BRuns.Tables(b, opsB)[|opsB|].occ == list.freeBits
      && B2Runs.Tables(b2, ops2)[|ops2|].occ == list.freeBits
      && B3Runs.Tables(b3, ops3)[|ops3|].occ == list.freeBits
  {
    FillAgrees(fill);
    var list, b := ListRuns.Tables(List.Empty(), fill)[|fill|], BRuns.Tables(B.Empty(), fill)[|fill|];
    var b2, b3 := B2Runs.Tables(B2.Empty(), fill)[|fill|], B3Runs.Tables(B3.Empty(), fill)[|fill|];
    ops, opsB, ops2, ops3 := RoundScripts(list, b, b2, b3, rounds);
    RoundsAgree(list, b, b2, b3, ops, opsB, ops2, ops3);
    Body.BisimilarRuns(Body.Empty(), fill);
    BodyKeepsWords(Body.After(Body.Empty(), fill), ops);
  }

  lemma BodyKeepsWords(body: Body.Table, ops: seq<Op>)
    requires Body.Inv(body) && List.Shape(Body.View(body)) && ListRuns.LegalRun(Body.View(body), ops)
    ensures Body.Outs(body, ops) == ListRuns.Outs(Body.View(body), ops)
    ensures Body.After(body, ops).freeBits == ListRuns.Tables(Body.View(body), ops)[|ops|].freeBits
  {
    Body.BisimilarRuns(body, ops);
  }

  lemma {:induction false} RoundScripts(list: List.Table, b: B.Table, b2: B2.Table, b3: B3.Table, rounds: seq<(nat, nat)>)
    returns (ops: seq<Op>, opsB: seq<Op>, ops2: seq<Op>, ops3: seq<Op>)
    requires Agree(list, b, b2, b3) && forall i | 0 <= i < |rounds| :: rounds[i].0 < 8
    ensures ListRuns.LegalRun(list, ops) && FlushesBack(ops, ListRuns.Outs(list, ops)) && Rounds(ops) == rounds
    ensures BRuns.LegalRun(b, opsB) && FlushesBack(opsB, BRuns.Outs(b, opsB)) && Rounds(opsB) == rounds
    ensures B2Runs.LegalRun(b2, ops2) && FlushesBack(ops2, B2Runs.Outs(b2, ops2)) && Rounds(ops2) == rounds
    ensures B3Runs.LegalRun(b3, ops3) && FlushesBack(ops3, B3Runs.Outs(b3, ops3)) && Rounds(ops3) == rounds
  {
    hide List.Inv, List.Shape, B.Inv, B2.Inv, B3.Inv, FlushesBack, Rounds;
    hide ListRuns.LegalRun, BRuns.LegalRun, B2Runs.LegalRun, B3Runs.LegalRun;
    ops := ListRuns.CanFlushBack(list, rounds);
    opsB := BRuns.CanFlushBack(b, rounds);
    ops2 := B2Runs.CanFlushBack(b2, rounds);
    ops3 := B3Runs.CanFlushBack(b3, rounds);
  }

  // ---- Remote merge ----

  /** What one remote merge hands over: distinct slots, as offsets, as a sub-leaf's words and as its leaf's words. */
  ghost predicate SameRegion(c: nat, sl: nat, offs: seq<nat>, src: seq<Word>, leafSrc: seq<Word>) {
    && c < 8 && sl < 1024 && |src| == 4 && |leafSrc| == 64 && offs != [] && Distinct(offs)
    && Elements(offs) == RegionSlots(4 * sl, src)
    && RegionSlots(64 * (sl / 16), leafSrc) == RegionSlots(4 * sl, src)
  }

  lemma {:induction false} ListThree(t: List.Table, t1: List.Table, t2: List.Table, x: Op, y: Op, z: Op)
    requires List.Inv(t) && List.Shape(t) && ListRuns.Legal(t, x) && t1 == ListRuns.Next(t, x).0
    requires List.Inv(t1) && List.Shape(t1) && ListRuns.Legal(t1, y) && t2 == ListRuns.Next(t1, y).0
    requires List.Inv(t2) && List.Shape(t2) && ListRuns.Legal(t2, z)
    ensures ListRuns.LegalRun(t, [x, y, z])
    ensures ListRuns.Outs(t, [x, y, z]) == [ListRuns.Next(t, x).1, ListRuns.Next(t1, y).1, ListRuns.Next(t2, z).1]
  {
    hide ListRuns.LegalRun, ListRuns.Outs, ListRuns.Next, ListRuns.Legal, Step, Smallest, List.Chain, List.Apart, List.Covers;
    ListRuns.RunOfOne(t2, z);
    assert [y] + [z] == [y, z] && [x] + [y, z] == [x, y, z];
    ListRuns.RunStarts(t1, y, [z]);
    ListRuns.RunStarts(t, x, [y, z]);
  }

  lemma {:induction false} BThree(t: B.Table, t1: B.Table, t2: B.Table, x: Op, y: Op, z: Op)
    requires B.Inv(t) && BRuns.Legal(t, x) && t1 == BRuns.Next(t, x).0
    requires B.Inv(t1) && BRuns.Legal(t1, y) && t2 == BRuns.Next(t1, y).0
    requires B.Inv(t2) && BRuns.Legal(t2, z)
    ensures BRuns.LegalRun(t, [x, y, z])
    ensures BRuns.Outs(t, [x, y, z]) == [BRuns.Next(t, x).1, BRuns.Next(t1, y).1, BRuns.Next(t2, z).1]
  {
    hide BRuns.LegalRun, BRuns.Outs, BRuns.Next, BRuns.Legal, Step, Smallest, B.CountsExact, B.LinksExact, B.HintsInRange, B.Inv;
    BRuns.RunOfOne(t2, z);
    assert [y] + [z] == [y, z] && [x] + [y, z] == [x, y, z];
    BRuns.RunStarts(t1, y, [z]);
    BRuns.RunStarts(t, x, [y, z]);
  }

  lemma {:induction false} B2Three(t: B2.Table, t1: B2.Table, t2: B2.Table, x: Op, y: Op, z: Op)
    requires B2.Inv(t) && B2Runs.Legal(t, x) && t1 == B2Runs.Next(t, x).0
    requires B2.Inv(t1) && B2Runs.Legal(t1, y) && t2 == B2Runs.Next(t1, y).0
    requires B2.Inv(t2) && B2Runs.Legal(t2, z)
    ensures B2Runs.LegalRun(t, [x, y, z])
    ensures B2Runs.Outs(t, [x, y, z]) == [B2Runs.Next(t, x).1, B2Runs.Next(t1, y).1, B2Runs.Next(t2, z).1]
  {
    hide B2Runs.LegalRun, B2Runs.Outs, B2Runs.Next, B2Runs.Legal, Step, Smallest, B2.MasksExact, B2.LinksExact, B2.Inv;
    B2Runs.RunOfOne(t2, z);
    assert [y] + [z] == [y, z] && [x] + [y, z] == [x, y, z];
    B2Runs.RunStarts(t1, y, [z]);
    B2Runs.RunStarts(t, x, [y, z]);
  }

  lemma {:induction false} B3Three(t: B3.Table, t1: B3.Table, t2: B3.Table, x: Op, y: Op, z: Op)
    requires B3.Inv(t) && B3Runs.Legal(t, x) && t1 == B3Runs.Next(t, x).0
    requires B3.Inv(t1) && B3Runs.Legal(t1, y) && t2 == B3Runs.Next(t1, y).0
    requires B3.Inv(t2) && B3Runs.Legal(t2, z)
    ensures B3Runs.LegalRun(t, [x, y, z])
    ensures B3Runs.Outs(t, [x, y, z]) == [B3Runs.Next(t, x).1, B3Runs.Next(t1, y).1, B3Runs.Next(t2, z).1]
  {
    hide B3Runs.LegalRun, B3Runs.Outs, B3Runs.Next, B3Runs.Legal, Step, Smallest, B3.MasksExact, B3.LinksExact, B3.CursorsLow, B3.Inv;
    B3Runs.RunOfOne(t2, z);
    assert [y] + [z] == [y, z] && [x] + [y, z] == [x, y, z];
    B3Runs.RunStarts(t1, y, [z]);
    B3Runs.RunStarts(t, x, [y, z]);
  }

  /** The linked models take the region slot by slot; priming is nothing to them. */
  lemma ListTakesRegion(c: nat, offs: seq<nat>, n: nat)
    requires c < 8 && List.Inv(List.Empty()) && Distinct(offs) && InSegment(offs)
    ensures ListRuns.LegalRun(List.Empty(), [Flush(c, []), Flush(c, offs), Drain(c, n)])
    ensures var sets := ListRuns.AllSets(ListRuns.Tables(List.Empty(), [Flush(c, []), Flush(c, offs), Drain(c, n)]));
      |sets| == 4 && |sets[2]| == 8 && sets[2][c] == Elements(offs)
  {
    var t, x, y, z := List.Empty(), Flush(c, []), Flush(c, offs), Drain(c, n);
    assert ListLaws.Retirable(t, []);
    assert ListRuns.Next(t, x) == (t, []);
    FreshBits(offs);
    ListRuns.NextRefines(t, y);
    var t2 := ListRuns.Next(t, y).0;
    assert ListLaws.Retirable(t2, []);
    ListThree(t, t, t2, x, y, z);
    FreshModels();
    var sets := ListRuns.AllSets(ListRuns.Tables(t, [x, y, z]));
    ListRuns.RunRefines(t, [x, y, z]);
  }

  lemma FreshBits(offs: seq<nat>)
    requires Distinct(offs) && InSegment(offs)
    ensures ListLaws.Retirable(List.Empty(), offs)
  {
    forall i | 0 <= i < |offs|
      ensures !Has(List.Empty().freeBits, offs[i])
    {
      ZeroHasNoBits(offs[i] % 64);
    }
  }

  lemma BMayMerge(t: B.Table, c: nat, leaf: nat, src: seq<Word>)
    requires c < 8 && leaf < 64 && |src| == 64 && RegionSlots(64 * leaf, src) != {}
    requires B.Inv(t) && t.hdr[leaf].freeCount == 0
    ensures BRuns.Legal(t, Prime(c, leaf)) && BRuns.Next(t, Prime(c, leaf)).0 == B.Prime(t, c, leaf)
    ensures BRuns.Legal(B.Prime(t, c, leaf), Merge(c, 64 * leaf, src))
  {
    hide RegionSlots, B.LeafSlots, B.LinksExact, B.HintsInRange;
    assert |B.LeafSlots(t.occ, leaf)| == 0;
    assert 64 * leaf / 64 == leaf && 64 * leaf % 64 == 0;
  }

  lemma BTakesRegion(t: B.Table, c: nat, leaf: nat, src: seq<Word>, n: nat)
    requires c < 8 && leaf < 64 && |src| == 64 && RegionSlots(64 * leaf, src) != {}
    requires B.Inv(t) && t.hdr[leaf].freeCount == 0
    ensures BRuns.LegalRun(t, [Prime(c, leaf), Merge(c, 64 * leaf, src), Drain(c, n)])
  {
    var x, y, z := Prime(c, leaf), Merge(c, 64 * leaf, src), Drain(c, n);
    BMayMerge(t, c, leaf, src);
    var t1 := B.Prime(t, c, leaf);
    hide BRuns.Legal, BRuns.Next, B.Inv, B.Prime, RegionSlots, Step;
    BRuns.PrimeRefines(t, x);
    BRuns.MergeRefines(t1, y);
    var t2 := BRuns.Next(t1, y).0;
    BMayDrain(t2, c, n);
    BThree(t, t1, t2, x, y, z);
  }

  lemma BMayDrain(t: B.Table, c: nat, n: nat)
    requires B.Inv(t) && c < 8
    ensures BRuns.Legal(t, Drain(c, n))
  {
    hide B.CountsExact, B.LinksExact, B.HintsInRange;
    assert BLaws.Retirable(t, c, []);
  }

  lemma B2MayMerge(t: B2.Table, c: nat, leaf: nat, src: seq<Word>)
    requires c < 8 && leaf < 64 && |src| == 64 && RegionSlots(64 * leaf, src) != {} && B2.Shape(t)
    ensures B2Runs.Legal(B2.Prime(t, c, leaf), Merge(c, 64 * leaf, src))
  {
    RegionHasWord(64 * leaf, src);
    hide RegionSlots;
    assert 64 * leaf / 64 == leaf && 64 * leaf % 64 == 0;
  }

  lemma B2TakesRegion(t: B2.Table, c: nat, leaf: nat, src: seq<Word>, n: nat)
    requires c < 8 && leaf < 64 && |src| == 64 && RegionSlots(64 * leaf, src) != {}
    requires B2.Inv(t) && t.hdr[leaf].wordsMask == 0
    ensures B2Runs.LegalRun(t, [Prime(c, leaf), Merge(c, 64 * leaf, src), Drain(c, n)])
  {
    hide B2.MasksExact, B2.LinksExact, RegionSlots, Step, B2.OrMergeRegion, B2.Prime;
    var x, y, z := Prime(c, leaf), Merge(c, 64 * leaf, src), Drain(c, n);
    B2MayMerge(t, c, leaf, src);
    B2Runs.PrimeRefines(t, x);
    var t1 := B2.Prime(t, c, leaf);
    B2Runs.MergeRefines(t1, y);
    var t2 := B2Runs.Next(t1, y).0;
    assert B2Runs.Legal(t2, z);
    B2Three(t, t1, t2, x, y, z);
  }

  lemma B3MayMerge(t: B3.Table, c: nat, sl: nat, src: seq<Word>)
    requires c < 8 && sl < 1024 && |src| == 4 && RegionSlots(4 * sl, src) != {} && B3.Shape(t)
    ensures B3Runs.Legal(B3.Prime(t, c, sl), Merge(c, 4 * sl, src))
  {
    RegionHasWord(4 * sl, src);
    hide RegionSlots;
    assert 4 * sl / 4 == sl && 4 * sl % 4 == 0;
  }

  lemma B3TakesRegion(t: B3.Table, c: nat, sl: nat, src: seq<Word>, n: nat)
    requires c < 8 && sl < 1024 && |src| == 4 && RegionSlots(4 * sl, src) != {}
    requires B3.Inv(t) && t.hdr[sl].wordsMask == 0
    ensures B3Runs.LegalRun(t, [Prime(c, sl), Merge(c, 4 * sl, src), Drain(c, n)])
  {
    hide B3.MasksExact, B3.LinksExact, B3.CursorsLow, RegionSlots, Step, B3.OrMergeRegion, B3.Prime;
    var x, y, z := Prime(c, sl), Merge(c, 4 * sl, src), Drain(c, n);
    B3MayMerge(t, c, sl, src);
    B3Runs.PrimeRefines(t, x);
    var t1 := B3.Prime(t, c, sl);
    B3Runs.MergeRefines(t1, y);
    var t2 := B3Runs.Next(t1, y).0;
    assert B3Runs.Legal(t2, z);
    B3Three(t, t1, t2, x, y, z);
  }

  lemma RegionHasWord(base: nat, src: seq<Word>)
    requires RegionSlots(base, src) != {}
    ensures exists w :: 0 <= w < |src| && src[w] != 0
  {
    var s :| s in RegionSlots(base, src);
    ZeroHasNoBits(s % 64);
    assert src[s / 64 - base] != 0;
  }

  /**
    * Remote merge, for any class and any region of one sub-leaf: fresh models take it as 64 words of a leaf
    * (B, B2), as four words of a sub-leaf (B3) or slot by slot (the lists), and a drain that asks for enough
    * issues exactly the region's slots in all five.
    */
  lemma {:induction false} RemoteMergeIdentity(
      c: nat, sl: nat, offs: seq<nat>, src: seq<Word>, leafSrc: seq<Word>, n: nat)
    requires SameRegion(c, sl, offs, src, leafSrc) && n >= |offs|
    requires List.Inv(List.Empty()) && B.Inv(B.Empty()) && B2.Inv(B2.Empty()) && B3.Inv(B3.Empty())
    requires Body.Inv(Body.Empty()) && Body.View(Body.Empty()) == List.Empty()
    ensures var ops := [Flush(c, []), Flush(c, offs), Drain(c, n)];
      var opsL := [Prime(c, sl / 16), Merge(c, 64 * (sl / 16), leafSrc), Drain(c, n)];
      var ops3 := [Prime(c, sl), Merge(c, 4 * sl, src), Drain(c, n)];
      && ListRuns.LegalRun(List.Empty(), ops) && BRuns.LegalRun(B.Empty(), opsL)
      && B2Runs.LegalRun(B2.Empty(), opsL) && B3Runs.LegalRun(B3.Empty(), ops3)
      && Body.Outs(Body.Empty(), ops) == ListRuns.Outs(List.Empty(), ops)
      && multiset(ListRuns.Outs(List.Empty(), ops)[2]) == multiset(offs)
      && multiset(BRuns.Outs(B.Empty(), opsL)[2]) == multiset(offs)
      && multiset(B2Runs.Outs(B2.Empty(), opsL)[2]) == multiset(offs)
      && B3Runs.Outs(B3.Empty(), ops3)[2] == B2Runs.Outs(B2.Empty(), opsL)[2]
  {
    var ops := [Flush(c, []), Flush(c, offs), Drain(c, n)];
    var opsL := [Prime(c, sl / 16), Merge(c, 64 * (sl / 16), leafSrc), Drain(c, n)];
    var ops3 := [Prime(c, sl), Merge(c, 4 * sl, src), Drain(c, n)];
    RegionFits(c, sl, offs, src, leafSrc);
    ListTakesRegion(c, offs, n);
    BTakesRegion(B.Empty(), c, sl / 16, leafSrc, n);
    B2TakesRegion(B2.Empty(), c, sl / 16, leafSrc, n);
    B3TakesRegion(B3.Empty(), c, sl, src, n);
    RegionScriptsMatch(c, sl, offs, src, leafSrc, n);
    FreshAgree();
    FullRegionDrain(c, offs, n);
    hide ListRuns.LegalRun, BRuns.LegalRun, B2Runs.LegalRun, B3Runs.LegalRun, AllMatch, FullDrains, Agree, SameRegion;
    AllFiveAgreeRoundByRound(List.Empty(), Body.Empty(), B.Empty(), B2.Empty(), B3.Empty(), ops, opsL, opsL, ops3);
  }

  lemma RegionFits(c: nat, sl: nat, offs: seq<nat>, src: seq<Word>, leafSrc: seq<Word>)
    requires SameRegion(c, sl, offs, src, leafSrc)
    ensures InSegment(offs) && RegionSlots(4 * sl, src) != {} && RegionSlots(64 * (sl / 16), leafSrc) != {}
  {
    assert offs[0] in Elements(offs);
    forall i | 0 <= i < |offs|
      ensures offs[i] < 262144
    {
      assert offs[i] in Elements(offs);
    }
  }

  /** A merge matches the flush of its region, and another merge of the same region. */
  lemma FlushMatchesMerge(c: nat, offs: seq<nat>, base: nat, src: seq<Word>)
    requires Elements(offs) == RegionSlots(base, src)
    ensures Matches(Flush(c, offs), Merge(c, base, src))
  {
    MergeRetires(Merge(c, base, src));
  }

  lemma RegionScriptsMatch(
      c: nat, sl: nat, offs: seq<nat>, src: seq<Word>, leafSrc: seq<Word>, n: nat)
    requires SameRegion(c, sl, offs, src, leafSrc)
    ensures var ops := [Flush(c, []), Flush(c, offs), Drain(c, n)];
      var opsL := [Prime(c, sl / 16), Merge(c, 64 * (sl / 16), leafSrc), Drain(c, n)];
      var ops3 := [Prime(c, sl), Merge(c, 4 * sl, src), Drain(c, n)];
      AllMatch(ops, opsL) && AllMatch(opsL, ops3)
  {
    FlushMatchesMerge(c, offs, 64 * (sl / 16), leafSrc);
    FlushMatchesMerge(c, offs, 4 * sl, src);
    assert Matches(Flush(c, []), Prime(c, sl / 16)) && Matches(Prime(c, sl / 16), Prime(c, sl));
    assert Matches(Drain(c, n), Drain(c, n));
    hide Matches, SameRegion;
  }

  /** The lists' drain finds exactly the region, so it asks for enough, and takes it all. */
  lemma FullRegionDrain(c: nat, offs: seq<nat>, n: nat)
    requires c < 8 && List.Inv(List.Empty()) && Distinct(offs) && InSegment(offs) && n >= |offs|
    ensures var ops := [Flush(c, []), Flush(c, offs), Drain(c, n)];
      && ListRuns.LegalRun(List.Empty(), ops)
      && FullDrains(ListRuns.AllSets(ListRuns.Tables(List.Empty(), ops)), ops)
      && multiset(ListRuns.Outs(List.Empty(), ops)[2]) == multiset(offs)
  {
    var ops := [Flush(c, []), Flush(c, offs), Drain(c, n)];
    hide List.Inv, List.Shape, Distinct, InSegment;
    ListTakesRegion(c, offs, n);
    ListRuns.RunRefines(List.Empty(), ops);
    SizeOfDistinct(offs);
    var s, outs := ListRuns.AllSets(ListRuns.Tables(List.Empty(), ops)), ListRuns.Outs(List.Empty(), ops);
    hide ListRuns.LegalRun, ListRuns.Tables, ListRuns.Outs, ListRuns.AllSets, Elements;
    assert Step(s[2], ops[2], outs[2], s[3]);
    FullDrainTakesAll(s[2], ops[2], outs[2], s[3]);
    MultisetOfDistinct(offs);
  }
}
