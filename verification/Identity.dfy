/** The identity check for every script: five geometries, one free set. */
module Identity {
  import opened Bitmaps
  import opened FreeSets
  import opened Scripts
  import List = ListTable
  import ListRuns
  import Body = IntrusiveTable
  import B = CountedTable
  import BLaws = CountedLaws
  import BRuns = CountedRuns
  import B2 = FastTable
  import B2Laws = FastLaws
  import B2Runs = FastRuns
  import B3 = SubleafTable
  import B3Laws = SubleafLaws
  import B3Runs = SubleafRuns
  import Lockstep

  /** The retire assertion of the linked models is the absence of double retires. */
  lemma ListLegalIsClean(t: List.Table, op: Op)
    requires List.Inv(t) && List.Shape(t) && ListRuns.Legal(t, op)
    ensures NoDoubleRetire(ListRuns.Sets(t), op)
  {
    hide List.Chain, List.Apart;
    var st := ListRuns.StacksOf(t);
    forall x, d | x in Retired(op) && 0 <= d < 8
      ensures x !in ListRuns.Sets(t)[d]
    {
      var i :| 0 <= i < |Retired(op)| && Retired(op)[i] == x;
      assert x !in st[d];
    }
  }

  lemma {:induction false} ListRunIsClean(t: List.Table, ops: seq<Op>)
    requires List.Inv(t) && List.Shape(t) && ListRuns.LegalRun(t, ops)
    ensures CleanRun(ListRuns.AllSets(ListRuns.Tables(t, ops)), ops)
    decreases |ops|
  {
    if ops != [] {
      hide ListRuns.Next, List.Inv, ListRuns.Legal, NoDoubleRetire, ListRuns.Sets, CleanRun;
      hide ListRuns.Tables, ListRuns.Outs, ListRuns.AllSets, ListRuns.LegalRun;
      ListRuns.RunUnfolds(t, ops);
      ListLegalIsClean(t, ops[0]);
      ListRuns.NextRefines(t, ops[0]);
      var t1 := ListRuns.Next(t, ops[0]).0;
      ListRunIsClean(t1, ops[1..]);
      CleanCons(ListRuns.Sets(t), ops[0], ListRuns.AllSets(ListRuns.Tables(t1, ops[1..])), ops[1..]);
      ListRuns.AllSetsCons(t, ListRuns.Tables(t1, ops[1..]));
      assert [ops[0]] + ops[1..] == ops;
    }
  }

  /** So is what candidate B asks of its callers. */
  lemma BLegalIsClean(t: B.Table, op: Op)
    requires B.Inv(t) && BRuns.Legal(t, op)
    ensures NoDoubleRetire(BLaws.Sets(t), op)
  {
    if op.Merge? {
      MergeRetires(op);
      MergedIsNew(t, op);
    } else {
      forall x, d | x in Retired(op) && 0 <= d < 8
        ensures x !in BLaws.Sets(t)[d]
      {
        var i :| 0 <= i < |Retired(op)| && Retired(op)[i] == x;
      }
    }
  }

  /** A region merged into an empty leaf holds no slot that is free already. */
  lemma MergedIsNew(t: B.Table, op: Op)
    requires B.Inv(t) && BRuns.Legal(t, op) && op.Merge?
    ensures forall x, d | x in Retired(op) && 0 <= d < 8 :: x !in BLaws.Sets(t)[d]
  {
    MergeRetires(op);
    hide Retired, B.CountsExact, B.LinksExact;
    forall x, d | x in Retired(op) && 0 <= d < 8
      ensures x !in BLaws.Sets(t)[d]
    {
      assert x in Elements(Retired(op));
      assert x / 4096 == op.base / 64;
      assert x !in B.LeafSlots(t.occ, op.base / 64);
    }
  }

  lemma {:induction false} BRunIsClean(t: B.Table, ops: seq<Op>)
    requires B.Inv(t) && BRuns.LegalRun(t, ops)
    ensures CleanRun(BRuns.AllSets(BRuns.Tables(t, ops)), ops)
    decreases |ops|
  {
    if ops != [] {
      hide BRuns.Next, B.CountsExact, B.LinksExact, B.HintsInRange, BRuns.Legal, NoDoubleRetire, BLaws.Sets, CleanRun;
      hide BRuns.Tables, BRuns.Outs, BRuns.AllSets, BRuns.LegalRun;
      BRuns.RunUnfolds(t, ops);
      BLegalIsClean(t, ops[0]);
      BRuns.NextRefines(t, ops[0]);
      var t1 := BRuns.Next(t, ops[0]).0;
      BRunIsClean(t1, ops[1..]);
      CleanCons(BLaws.Sets(t), ops[0], BRuns.AllSets(BRuns.Tables(t1, ops[1..])), ops[1..]);
      BRuns.AllSetsCons(t, BRuns.Tables(t1, ops[1..]));
      assert [ops[0]] + ops[1..] == ops;
    }
  }

  lemma ListIssuesAll(t: List.Table, ops: seq<Op>, c: nat)
    requires List.Inv(t) && List.Shape(t) && ListRuns.LegalRun(t, ops) && c < 8
    requires ListRuns.Sets(ListRuns.Tables(t, ops)[|ops|])[c] == {}
    ensures Issued(ops, ListRuns.Outs(t, ops), c) == multiset(ListRuns.Sets(t)[c]) + Returned(ops, c)
  {
    hide List.Inv, Run, CleanRun, ListRuns.LegalRun, Issued, Returned;
    ListRuns.RunRefines(t, ops);
    ListRunIsClean(t, ops);
    DrainedRunIssuesAll(ListRuns.AllSets(ListRuns.Tables(t, ops)), ops, ListRuns.Outs(t, ops), c);
  }

  lemma BIssuesAll(t: B.Table, ops: seq<Op>, c: nat)
    requires B.Inv(t) && BRuns.LegalRun(t, ops) && c < 8
    requires BLaws.Sets(BRuns.Tables(t, ops)[|ops|])[c] == {}
    ensures Issued(ops, BRuns.Outs(t, ops), c) == multiset(BLaws.Sets(t)[c]) + Returned(ops, c)
  {
    hide B.CountsExact, B.LinksExact, B.HintsInRange, Run, CleanRun, BRuns.LegalRun, Issued, Returned;
    BRuns.RunRefines(t, ops);
    BRunIsClean(t, ops);
    DrainedRunIssuesAll(BRuns.AllSets(BRuns.Tables(t, ops)), ops, BRuns.Outs(t, ops), c);
  }

  lemma B2IssuesAll(t: B2.Table, ops: seq<Op>, c: nat)
    requires B2.Inv(t) && B2Runs.LegalRun(t, ops) && c < 8
    requires CleanRun(B2Runs.AllSets(B2Runs.Tables(t, ops)), ops)
    requires B2Laws.Sets(B2Runs.Tables(t, ops)[|ops|])[c] == {}
    ensures Issued(ops, B2Runs.Outs(t, ops), c) == multiset(B2Laws.Sets(t)[c]) + Returned(ops, c)
  {
    hide B2.MasksExact, B2.LinksExact, Run, CleanRun, B2Runs.LegalRun, Issued, Returned;
    B2Runs.RunRefines(t, ops);
    DrainedRunIssuesAll(B2Runs.AllSets(B2Runs.Tables(t, ops)), ops, B2Runs.Outs(t, ops), c);
  }

  // The theorems over five tables carry `{:induction false}` to spare Dafny a search for induction variables.

  /**
    * Start all five models with no free slot of class `c`, and run matching scripts, one for each geometry,
    * that leave none. Then each has issued for `c` exactly what was handed back, every slot as often as it
    * was retired: all five agree, whatever their order of issue and of handing back.
    */
  lemma {:induction false} AllFiveIssueTheSame(
      list: List.Table, body: Body.Table, b: B.Table, b2: B2.Table, b3: B3.Table,
      ops: seq<Op>, opsB: seq<Op>, ops2: seq<Op>, ops3: seq<Op>, c: nat)
    requires c < 8 && AllMatch(ops, opsB) && AllMatch(ops, ops2) && AllMatch(ops2, ops3)
    requires List.Inv(list) && List.Shape(list) && ListRuns.LegalRun(list, ops)
    requires ListRuns.Sets(list)[c] == {} && ListRuns.Sets(ListRuns.Tables(list, ops)[|ops|])[c] == {}
    requires Body.Inv(body) && Body.View(body) == list
    requires B.Inv(b) && BRuns.LegalRun(b, opsB)
    requires BLaws.Sets(b)[c] == {} && BLaws.Sets(BRuns.Tables(b, opsB)[|ops|])[c] == {}
    requires B2.Inv(b2) && B2Runs.LegalRun(b2, ops2) && CleanRun(B2Runs.AllSets(B2Runs.Tables(b2, ops2)), ops2)
    requires B2Laws.Sets(b2)[c] == {} && B2Laws.Sets(B2Runs.Tables(b2, ops2)[|ops|])[c] == {}
    requires Lockstep.Same(b2, b3) && B3Runs.LegalRun(b3, ops3)
    requires CleanRun(B3Runs.AllSets(B3Runs.Tables(b3, ops3)), ops3)
    ensures Body.Outs(body, ops) == ListRuns.Outs(list, ops)
    ensures Issued(ops, ListRuns.Outs(list, ops), c) == Returned(ops, c)
    ensures Issued(opsB, BRuns.Outs(b, opsB), c) == Returned(ops, c)
    ensures Issued(ops2, B2Runs.Outs(b2, ops2), c) == Returned(ops, c)
    ensures B3Runs.Outs(b3, ops3) == B2Runs.Outs(b2, ops2) && Returned(ops3, c) == Returned(ops, c)
  {
    hide List.Rep, B.CountsExact, B.LinksExact, B.HintsInRange, B2.MasksExact, B2.LinksExact;
    hide B3.MasksExact, B3.LinksExact, B3.CursorsLow, Matches;
    hide Run, CleanRun, Issued, Returned, ListRuns.LegalRun, BRuns.LegalRun, B2Runs.LegalRun, B3Runs.LegalRun;
    ListIssuesAll(list, ops, c);
    Body.BisimilarRuns(body, ops);
    BIssuesAll(b, opsB, c);
    B2IssuesAll(b2, ops2, c);
    Lockstep.MatchingRuns(b2, b3, ops2, ops3);
    ListRunIsClean(list, ops);
    BRunIsClean(b, opsB);
    var s, s2 := ListRuns.AllSets(ListRuns.Tables(list, ops)), B2Runs.AllSets(B2Runs.Tables(b2, ops2));
    SameReturned(s, ops, BRuns.AllSets(BRuns.Tables(b, opsB)), opsB, c);
    SameReturned(s, ops, s2, ops2, c);
    SameReturned(s2, ops2, B3Runs.AllSets(B3Runs.Tables(b3, ops3)), ops3, c);
    assert multiset{} + Returned(ops, c) == Returned(ops, c);
    assert multiset{} + Returned(opsB, c) == Returned(opsB, c);
    assert multiset{} + Returned(ops2, c) == Returned(ops2, c);
  }

  /** The four geometries hold the same free sets, class by class. */
  ghost predicate Agree(list: List.Table, b: B.Table, b2: B2.Table, b3: B3.Table) {
    && List.Inv(list) && List.Shape(list) && B.Inv(b) && Lockstep.Same(b2, b3)
    && BLaws.Sets(b) == ListRuns.Sets(list) && B2Laws.Sets(b2) == ListRuns.Sets(list)
  }

  /** Then the free bitmap of the lists and the occupancy words of the leaf models are the same words. */
  lemma AgreeingWords(list: List.Table, b: B.Table, b2: B2.Table, b3: B3.Table)
    requires Agree(list, b, b2, b3)
    ensures list.freeBits == b.occ == b2.occ == b3.occ
  {
    Lockstep.SameOccupancy(b2, b3);
    forall s: nat | s < 262144
      ensures Has(list.freeBits, s) <==> exists c :: 0 <= c < 8 && s in ListRuns.Sets(list)[c]
      ensures Has(b.occ, s) <==> exists c :: 0 <= c < 8 && s in BLaws.Sets(b)[c]
      ensures Has(b2.occ, s) <==> exists c :: 0 <= c < 8 && s in B2Laws.Sets(b2)[c]
    {
      ListWords(list, s);
      BWords(b, s);
      B2Words(b2, s);
    }
    SlotsDetermine(list.freeBits, b.occ);
    SlotsDetermine(b.occ, b2.occ);
  }

  lemma ListWords(t: List.Table, s: nat)
    requires List.Inv(t) && List.Shape(t) && s < 262144
    ensures Has(t.freeBits, s) <==> exists c :: 0 <= c < 8 && s in ListRuns.Sets(t)[c]
  {
    hide List.Chain, List.Apart;
    var st := ListRuns.StacksOf(t);
    if Has(t.freeBits, s) {
      var c :| 0 <= c < |st| && s in st[c];
      assert s in ListRuns.Sets(t)[c];
    }
    if c :| 0 <= c < 8 && s in ListRuns.Sets(t)[c] {
      assert s in st[c];
    }
  }

  lemma BWords(t: B.Table, s: nat)
    requires B.Inv(t) && s < 262144
    ensures Has(t.occ, s) <==> exists c :: 0 <= c < 8 && s in BLaws.Sets(t)[c]
  {
    hide B.CountsExact, B.LinksExact;
    var c := t.hdr[s / 4096].bound;
    assert s in BLaws.Sets(t)[c] <==> Has(t.occ, s);
  }

  lemma B2Words(t: B2.Table, s: nat)
    requires B2.Inv(t) && s < 262144
    ensures Has(t.occ, s) <==> exists c :: 0 <= c < 8 && s in B2Laws.Sets(t)[c]
  {
    hide B2.MasksExact, B2.LinksExact;
    var c := t.hdr[s / 4096].bound;
    assert s in B2Laws.Sets(t)[c] <==> Has(t.occ, s);
  }

  /**
    * When every drain asks for at least what its class holds, the five models agree round by round, up to
    * the order within a round, and end with the same free sets. The scripts need only match: each model may
    * hand back what it was itself given, in its own order, and take a region as a merge or slot by slot.
    */
  lemma {:induction false} AllFiveAgreeRoundByRound(
      list: List.Table, body: Body.Table, b: B.Table, b2: B2.Table, b3: B3.Table,
      ops: seq<Op>, opsB: seq<Op>, ops2: seq<Op>, ops3: seq<Op>)
    requires Agree(list, b, b2, b3) && AllMatch(ops, opsB) && AllMatch(ops, ops2) && AllMatch(ops2, ops3)
    requires ListRuns.LegalRun(list, ops) && FullDrains(ListRuns.AllSets(ListRuns.Tables(list, ops)), ops)
    requires Body.Inv(body) && Body.View(body) == list
    requires BRuns.LegalRun(b, opsB) && B2Runs.LegalRun(b2, ops2) && B3Runs.LegalRun(b3, ops3)
    ensures Agree(ListRuns.Tables(list, ops)[|ops|], BRuns.Tables(b, opsB)[|ops|],
                  B2Runs.Tables(b2, ops2)[|ops|], B3Runs.Tables(b3, ops3)[|ops|])
    ensures Body.View(Body.After(body, ops)) == ListRuns.Tables(list, ops)[|ops|]
    ensures Body.Outs(body, ops) == ListRuns.Outs(list, ops) && B3Runs.Outs(b3, ops3) == B2Runs.Outs(b2, ops2)
    ensures forall i | 0 <= i < |ops| ::
      multiset(ListRuns.Outs(list, ops)[i]) == multiset(BRuns.Outs(b, opsB)[i])
      && multiset(ListRuns.Outs(list, ops)[i]) == multiset(B2Runs.Outs(b2, ops2)[i])
  {
    hide ListRuns.Tables, ListRuns.Outs, BRuns.Tables, BRuns.Outs, B2Runs.Tables, B2Runs.Outs, B3Runs.Tables, B3Runs.Outs;
    hide List.Inv, B.CountsExact, B.LinksExact, B.HintsInRange, B2.MasksExact, B2.LinksExact;
    assert B2.Inv(b2) && B3.Inv(b3);
    hide B3.MasksExact, B3.LinksExact, B3.CursorsLow, Matches, Lockstep.Same;
    hide Run, FullDrains, ListRuns.LegalRun, BRuns.LegalRun, B2Runs.LegalRun, B3Runs.LegalRun;
    hide ListRuns.Sets, BLaws.Sets, B2Laws.Sets;
    ListRuns.RunRefines(list, ops);
    BRuns.RunRefines(b, opsB);
    B2Runs.RunRefines(b2, ops2);
    Body.BisimilarRuns(body, ops);
    Lockstep.MatchingRuns(b2, b3, ops2, ops3);
    var s := ListRuns.AllSets(ListRuns.Tables(list, ops));
    FullDrainRunsAgree(
      s, ops, ListRuns.Outs(list, ops), BRuns.AllSets(BRuns.Tables(b, opsB)), opsB, BRuns.Outs(b, opsB));
    FullDrainRunsAgree(
      s, ops, ListRuns.Outs(list, ops), B2Runs.AllSets(B2Runs.Tables(b2, ops2)), ops2, B2Runs.Outs(b2, ops2));
    assert s[|ops|] == ListRuns.Sets(ListRuns.Tables(list, ops)[|ops|]);
    ListShapes(list, ops);
  }

  lemma {:induction false} ListShapes(t: List.Table, ops: seq<Op>)
    requires List.Inv(t) && List.Shape(t) && ListRuns.LegalRun(t, ops)
    ensures List.Shape(ListRuns.Tables(t, ops)[|ops|])
    decreases |ops|
  {
    if ops != [] {
      hide ListRuns.Next, List.Inv, List.Shape, ListRuns.Legal, ListRuns.Tables, ListRuns.LegalRun;
      ListRuns.RunUnfolds(t, ops);
      ListShapes(ListRuns.Next(t, ops[0]).0, ops[1..]);
    }
  }

  /**
    * Any number of rounds that drain a batch of any size and flush back what came out: whatever each model
    * was given and in whatever order, all five end with the free sets, and the free words, they began with.
    */
  lemma {:induction false} FlushBackIdentity(
      list: List.Table, body: Body.Table, b: B.Table, b2: B2.Table, b3: B3.Table,
      ops: seq<Op>, opsB: seq<Op>, ops2: seq<Op>, ops3: seq<Op>)
    requires Agree(list, b, b2, b3) && Body.Inv(body) && Body.View(body) == list
    requires ListRuns.LegalRun(list, ops) && FlushesBack(ops, ListRuns.Outs(list, ops))
    requires BRuns.LegalRun(b, opsB) && FlushesBack(opsB, BRuns.Outs(b, opsB))
    requires B2Runs.LegalRun(b2, ops2) && FlushesBack(ops2, B2Runs.Outs(b2, ops2))
    requires B3Runs.LegalRun(b3, ops3) && FlushesBack(ops3, B3Runs.Outs(b3, ops3))
    ensures Body.Outs(body, ops) == ListRuns.Outs(list, ops)
    ensures Body.View(Body.After(body, ops)) == ListRuns.Tables(list, ops)[|ops|]
    ensures var list', b' := ListRuns.Tables(list, ops)[|ops|], BRuns.Tables(b, opsB)[|opsB|];
      var b2', b3' := B2Runs.Tables(b2, ops2)[|ops2|], B3Runs.Tables(b3, ops3)[|ops3|];
      && Agree(list', b', b2', b3') && ListRuns.Sets(list') == ListRuns.Sets(list)
      && list'.freeBits == b'.occ == b2'.occ == b3'.occ == list.freeBits
  {
    hide Agree, List.Inv, ListRuns.Sets, ListRuns.LegalRun, BRuns.LegalRun, B2Runs.LegalRun, B3Runs.LegalRun, FlushesBack;
    Body.BisimilarRuns(body, ops);
    RoundsAgree(list, b, b2, b3, ops, opsB, ops2, ops3);
  }

  /** `FlushBackIdentity` for the list in the side table and the leaf models. */
  lemma {:induction false} RoundsAgree(
      list: List.Table, b: B.Table, b2: B2.Table, b3: B3.Table,
      ops: seq<Op>, opsB: seq<Op>, ops2: seq<Op>, ops3: seq<Op>)
    requires Agree(list, b, b2, b3)
    requires ListRuns.LegalRun(list, ops) && FlushesBack(ops, ListRuns.Outs(list, ops))
    requires BRuns.LegalRun(b, opsB) && FlushesBack(opsB, BRuns.Outs(b, opsB))
    requires B2Runs.LegalRun(b2, ops2) && FlushesBack(ops2, B2Runs.Outs(b2, ops2))
    requires B3Runs.LegalRun(b3, ops3) && FlushesBack(ops3, B3Runs.Outs(b3, ops3))
    ensures var list', b' := ListRuns.Tables(list, ops)[|ops|], BRuns.Tables(b, opsB)[|opsB|];
      var b2', b3' := B2Runs.Tables(b2, ops2)[|ops2|], B3Runs.Tables(b3, ops3)[|ops3|];
      && Agree(list', b', b2', b3') && ListRuns.Sets(list') == ListRuns.Sets(list)
      && list'.freeBits == b'.occ == b2'.occ == b3'.occ == list.freeBits
  {
    hide List.Inv, List.Shape, ListRuns.Sets, ListRuns.LegalRun, BRuns.LegalRun, B2Runs.LegalRun, B3Runs.LegalRun;
    hide B.Inv, BLaws.Sets, B2Laws.Sets, Lockstep.Same, FlushesBack;
    ListRestores(list, ops);
    BRestores(b, opsB);
    LockstepRestores(b2, b3, ops2, ops3);
    AgreeingWords(ListRuns.Tables(list, ops)[|ops|], BRuns.Tables(b, opsB)[|opsB|],
                  B2Runs.Tables(b2, ops2)[|ops2|], B3Runs.Tables(b3, ops3)[|ops3|]);
    ListWordsKept(list, ListRuns.Tables(list, ops)[|ops|]);
  }

  /**
    * What such a round issues: as many slots of the class in every model, and when the batch is large enough
    * the same slots, all that the class had at the start.
    */
  lemma {:induction false} FlushBackIssues(
      list: List.Table, body: Body.Table, b: B.Table, b2: B2.Table, b3: B3.Table,
      ops: seq<Op>, opsB: seq<Op>, ops2: seq<Op>, ops3: seq<Op>, i: nat)
    requires Agree(list, b, b2, b3) && Body.Inv(body) && Body.View(body) == list && i % 2 == 0
    requires i < |ops| == |opsB| == |ops2| == |ops3| && ops[i] == opsB[i] == ops2[i] == ops3[i]
    requires ListRuns.LegalRun(list, ops) && FlushesBack(ops, ListRuns.Outs(list, ops))
    requires BRuns.LegalRun(b, opsB) && FlushesBack(opsB, BRuns.Outs(b, opsB))
    requires B2Runs.LegalRun(b2, ops2) && FlushesBack(ops2, B2Runs.Outs(b2, ops2))
    requires B3Runs.LegalRun(b3, ops3) && FlushesBack(ops3, B3Runs.Outs(b3, ops3))
    ensures Body.Outs(body, ops) == ListRuns.Outs(list, ops)
    ensures ops[i].Drain? && ops[i].cls < |ListRuns.Sets(list)| == 8
    ensures var all := ListRuns.Sets(list)[ops[i].cls];
      var out, outB := ListRuns.Outs(list, ops)[i], BRuns.Outs(b, opsB)[i];
      var out2, out3 := B2Runs.Outs(b2, ops2)[i], B3Runs.Outs(b3, ops3)[i];
      && |out| == |outB| == |out2| == |out3| == (if ops[i].n < |all| then ops[i].n else |all|)
      && (ops[i].n >= |all| ==>
            multiset(out) == multiset(outB) == multiset(out2) == multiset(out3) == multiset(all))
  {
    var c := ops[i].cls;
    Body.BisimilarRuns(body, ops);
    ListRound(list, ops, i);
    BRound(b, opsB, i);
    B2Round(b2, ops2, i);
    B3Round(b3, ops3, i);
    assert B2Laws.Sets(b2)[c] == B2.Free(b2, c) == B3.Free(b3, c) == B3Laws.Sets(b3)[c];
  }

  lemma ListRound(t: List.Table, ops: seq<Op>, i: nat)
    requires List.Inv(t) && List.Shape(t) && ListRuns.LegalRun(t, ops) && FlushesBack(ops, ListRuns.Outs(t, ops))
    requires i < |ops| && i % 2 == 0
    ensures ops[i].Drain? && ops[i].cls < |ListRuns.Sets(t)| == 8
    ensures var out, all := ListRuns.Outs(t, ops)[i], ListRuns.Sets(t)[ops[i].cls];
      && |out| == (if ops[i].n < |all| then ops[i].n else |all|)
      && (ops[i].n >= |all| ==> multiset(out) == multiset(all))
  {
    hide ListRuns.LegalRun, FlushesBack, Run, List.Inv, List.Shape;
    ListRuns.RunRefines(t, ops);
    RoundIssues(ListRuns.AllSets(ListRuns.Tables(t, ops)), ops, ListRuns.Outs(t, ops), i);
  }

  lemma BRound(t: B.Table, ops: seq<Op>, i: nat)
    requires B.Inv(t) && BRuns.LegalRun(t, ops) && FlushesBack(ops, BRuns.Outs(t, ops)) && i < |ops| && i % 2 == 0
    ensures ops[i].Drain? && ops[i].cls < |BLaws.Sets(t)|
    ensures var out, all := BRuns.Outs(t, ops)[i], BLaws.Sets(t)[ops[i].cls];
      && |out| == (if ops[i].n < |all| then ops[i].n else |all|)
      && (ops[i].n >= |all| ==> multiset(out) == multiset(all))
  {
    hide BRuns.LegalRun, FlushesBack, Run, B.CountsExact, B.LinksExact, B.HintsInRange;
    BRuns.RunRefines(t, ops);
    RoundIssues(BRuns.AllSets(BRuns.Tables(t, ops)), ops, BRuns.Outs(t, ops), i);
  }

  lemma B2Round(t: B2.Table, ops: seq<Op>, i: nat)
    requires B2.Inv(t) && B2Runs.LegalRun(t, ops) && FlushesBack(ops, B2Runs.Outs(t, ops)) && i < |ops| && i % 2 == 0
    ensures ops[i].Drain? && ops[i].cls < |B2Laws.Sets(t)|
    ensures var out, all := B2Runs.Outs(t, ops)[i], B2Laws.Sets(t)[ops[i].cls];
      && |out| == (if ops[i].n < |all| then ops[i].n else |all|)
      && (ops[i].n >= |all| ==> multiset(out) == multiset(all))
  {
    hide B2Runs.LegalRun, FlushesBack, Run, B2.MasksExact, B2.LinksExact;
    B2Runs.RunRefines(t, ops);
    RoundIssues(B2Runs.AllSets(B2Runs.Tables(t, ops)), ops, B2Runs.Outs(t, ops), i);
  }

  lemma B3Round(t: B3.Table, ops: seq<Op>, i: nat)
    requires B3.Inv(t) && B3Runs.LegalRun(t, ops) && FlushesBack(ops, B3Runs.Outs(t, ops)) && i < |ops| && i % 2 == 0
    ensures ops[i].Drain? && ops[i].cls < |B3Laws.Sets(t)|
    ensures var out, all := B3Runs.Outs(t, ops)[i], B3Laws.Sets(t)[ops[i].cls];
      && |out| == (if ops[i].n < |all| then ops[i].n else |all|)
      && (ops[i].n >= |all| ==> multiset(out) == multiset(all))
  {
    hide B3Runs.LegalRun, FlushesBack, Run, B3.MasksExact, B3.LinksExact, B3.CursorsLow;
    B3Runs.RunRefines(t, ops);
    RoundIssues(B3Runs.AllSets(B3Runs.Tables(t, ops)), ops, B3Runs.Outs(t, ops), i);
  }

  lemma ListWordsKept(t: List.Table, t': List.Table)
    requires List.Inv(t) && List.Shape(t) && List.Inv(t') && List.Shape(t') && ListRuns.Sets(t') == ListRuns.Sets(t)
    ensures t'.freeBits == t.freeBits
  {
    forall s: nat | s < 262144
      ensures Has(t.freeBits, s) <==> Has(t'.freeBits, s)
    {
      ListWords(t, s);
      ListWords(t', s);
    }
    SlotsDetermine(t.freeBits, t'.freeBits);
  }

  lemma ListRestores(t: List.Table, ops: seq<Op>)
    requires List.Inv(t) && List.Shape(t) && ListRuns.LegalRun(t, ops) && FlushesBack(ops, ListRuns.Outs(t, ops))
    ensures var t' := ListRuns.Tables(t, ops)[|ops|];
      List.Inv(t') && List.Shape(t') && ListRuns.Sets(t') == ListRuns.Sets(t)
  {
    hide List.Inv, List.Shape, ListRuns.Sets, ListRuns.LegalRun, FlushesBack, Run;
    ListRuns.RunRefines(t, ops);
    RoundsRestore(ListRuns.AllSets(ListRuns.Tables(t, ops)), ops, ListRuns.Outs(t, ops));
    ListShapes(t, ops);
  }

  lemma BRestores(t: B.Table, ops: seq<Op>)
    requires B.Inv(t) && BRuns.LegalRun(t, ops) && FlushesBack(ops, BRuns.Outs(t, ops))
    ensures var t' := BRuns.Tables(t, ops)[|ops|]; B.Inv(t') && BLaws.Sets(t') == BLaws.Sets(t)
  {
    hide B.CountsExact, B.LinksExact, B.HintsInRange, BLaws.Sets, BRuns.LegalRun, FlushesBack, Run;
    BRuns.RunRefines(t, ops);
    RoundsRestore(BRuns.AllSets(BRuns.Tables(t, ops)), ops, BRuns.Outs(t, ops));
  }

  lemma LockstepRestores(t: B2.Table, u: B3.Table, ops2: seq<Op>, ops3: seq<Op>)
    requires Lockstep.Same(t, u)
    requires B2Runs.LegalRun(t, ops2) && FlushesBack(ops2, B2Runs.Outs(t, ops2))
    requires B3Runs.LegalRun(u, ops3) && FlushesBack(ops3, B3Runs.Outs(u, ops3))
    ensures var t', u' := B2Runs.Tables(t, ops2)[|ops2|], B3Runs.Tables(u, ops3)[|ops3|];
      Lockstep.Same(t', u') && B2Laws.Sets(t') == B2Laws.Sets(t)
  {
    hide B2.MasksExact, B2.LinksExact, B3.MasksExact, B3.LinksExact, B3.CursorsLow, B2.Free, B3.Free;
    hide B2Runs.LegalRun, B3Runs.LegalRun, FlushesBack, Run;
    B2Runs.RunRefines(t, ops2);
    B3Runs.RunRefines(u, ops3);
    RoundsRestore(B2Runs.AllSets(B2Runs.Tables(t, ops2)), ops2, B2Runs.Outs(t, ops2));
    RoundsRestore(B3Runs.AllSets(B3Runs.Tables(u, ops3)), ops3, B3Runs.Outs(u, ops3));
    var t', u' := B2Runs.Tables(t, ops2)[|ops2|], B3Runs.Tables(u, ops3)[|ops3|];
    assert B2Laws.Sets(t') == B2Laws.Sets(t) && B3Laws.Sets(u') == B3Laws.Sets(u);
    forall c: nat | c < 8
      ensures B2.Free(t', c) == B3.Free(u', c)
    {
      assert B2Laws.Sets(t')[c] == B2.Free(t', c) && B2Laws.Sets(t)[c] == B2.Free(t, c);
      assert B3Laws.Sets(u')[c] == B3.Free(u', c) && B3Laws.Sets(u)[c] == B3.Free(u, c);
    }
    forall c: nat | 8 <= c < 49
      ensures B3.Free(u', c) == {}
    {
      assert B3Laws.Sets(u')[c] == B3.Free(u', c) && B3Laws.Sets(u)[c] == B3.Free(u, c);
    }
  }
}
