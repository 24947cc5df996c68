/** B2 and B3 side by side: a coarse and a fine index over the same occupancy words. */
module Lockstep {
  import opened FreeSets
  import opened Bitmaps
  import opened Scripts
  import B2 = FastTable
  import B2Laws = FastLaws
  import B2Runs = FastRuns
  import B3 = SubleafTable
  import B3Laws = SubleafLaws
  import B3Runs = SubleafRuns

  /** The two tables hold the same free slots, class by class. */
  ghost predicate Same(a: B2.Table, b: B3.Table) {
    && B2.Inv(a) && B3.Inv(b)
    && (forall c: nat | c < 8 :: B2.Free(a, c) == B3.Free(b, c))
    && (forall c: nat | 8 <= c < 49 :: B3.Free(b, c) == {})
  }

  /** Then their occupancy words are the same words. */
  lemma SameOccupancy(a: B2.Table, b: B3.Table)
    requires Same(a, b)
    ensures a.occ == b.occ
  {
    forall s: nat | s < 262144
      ensures Has(a.occ, s) <==> Has(b.occ, s)
    {
      var c, d := a.hdr[s / 4096].bound, b.hdr[s / 256].bound;
      assert s in B2.Free(a, c) <==> Has(a.occ, s);
      assert s in B3.Free(b, d) <==> Has(b.occ, s);
      assert s in B2.Free(a, c) <==> s in B3.Free(b, c);
      assert d < 8 ==> (s in B2.Free(a, d) <==> s in B3.Free(b, d));
    }
    SlotsDetermine(a.occ, b.occ);
  }

  /**
    * The leaf's class as B3 reports it, from its first non-empty sub-leaf, is the class in B2's header,
    * and B3 reports none exactly when the leaf is empty.
    */
  lemma LeafClassesAgree(a: B2.Table, b: B3.Table, leaf: nat, r: Option<nat>)
    requires Same(a, b) && leaf < 64 && B3.IsLeafClass(b, leaf, r)
    ensures r == if a.hdr[leaf].wordsMask == 0 then None else Some(a.hdr[leaf].bound)
  {
    SameOccupancy(a, b);
    B2.EmptyLeaf(a, leaf);
    if r.Some? {
      var sl: nat :| 16 * leaf <= sl < 16 * leaf + 16 && b.hdr[sl].wordsMask != 0 && b.hdr[sl].bound == r.value;
      B3.EmptySubleaf(b, sl);
      var s: nat :| 256 * sl <= s < 256 * sl + 256 && Has(b.occ, s);
      assert s / 256 == sl && s / 4096 == leaf;
      assert s in B3.Free(b, r.value) && s in B2.Free(a, r.value);
    } else {
      NonEmptySubleaf(a, b, leaf);
    }
  }

  lemma NonEmptySubleaf(a: B2.Table, b: B3.Table, leaf: nat)
    requires Same(a, b) && leaf < 64
    ensures a.hdr[leaf].wordsMask != 0 ==>
      exists sl: nat :: 16 * leaf <= sl < 16 * leaf + 16 && b.hdr[sl].wordsMask != 0
  {
    SameOccupancy(a, b);
    B2.EmptyLeaf(a, leaf);
    if a.hdr[leaf].wordsMask != 0 {
      var s: nat :| 4096 * leaf <= s < 4096 * leaf + 4096 && Has(a.occ, s);
      B3.EmptySubleaf(b, s / 256);
      assert b.hdr[s / 256].wordsMask != 0;
    }
  }

  /** A retire that suits the 64 KiB grain suits the 4 KiB grain. */
  lemma FitsFiner(a: B2.Table, b: B3.Table, c: nat, offs: seq<nat>)
    requires Same(a, b) && c < 8 && B2Laws.AllFit(a, c, offs)
    ensures B3Laws.AllFit(b, c, offs)
  {
    hide B2.LinksExact, B3.LinksExact, B3.CursorsLow, B2.MasksExact, B3.MasksExact;
    forall i | 0 <= i < |offs|
      ensures B3.Fits(b, c, offs[i] / 256)
    {
      FitsFinerAt(a, b, c, offs[i]);
    }
  }

  lemma FitsFinerAt(a: B2.Table, b: B3.Table, c: nat, off: nat)
    requires Same(a, b) && c < 8 && off < 262144 && B2.Fits(a, c, off / 4096)
    ensures B3.Fits(b, c, off / 256)
  {
    var sl, leaf := off / 256, off / 4096;
    B3.EmptySubleaf(b, sl);
    if b.hdr[sl].wordsMask != 0 {
      var s: nat :| 256 * sl <= s < 256 * sl + 256 && Has(b.occ, s);
      assert s / 256 == sl && s / 4096 == leaf;
      var d := b.hdr[sl].bound;
      assert s in B3.Free(b, d);
      assert s in B2.Free(a, d);
      B2.EmptyLeaf(a, leaf);
    }
  }

  /** Matching calls, each legal for its own table, issue the same and keep the tables in step. */
  lemma LockstepNext(a: B2.Table, b: B3.Table, op: Op, op': Op)
    requires Same(a, b) && B2Runs.Legal(a, op) && B3Runs.Legal(b, op') && Matches(op, op')
    ensures var (a', out) := B2Runs.Next(a, op); var (b', out') := B3Runs.Next(b, op');
      Same(a', b') && out == out'
  {
    B2Runs.NextRefines(a, op);
    B3Runs.NextRefines(b, op');
    hide B2Runs.Next, B3Runs.Next, B2Runs.Legal, B3Runs.Legal, Retired, Asked;
    hide B2.MasksExact, B2.LinksExact, B3.MasksExact, B3.LinksExact, B3.CursorsLow, B2.Free, B3.Free;
    var (a', out) := B2Runs.Next(a, op);
    var (b', out') := B3Runs.Next(b, op');
    forall c: nat | c < 8
      ensures B2.Free(a', c) == B3.Free(b', c)
    {
      assert B2Laws.Sets(a')[c] == B2.Free(a', c) && B3Laws.Sets(b')[c] == B3.Free(b', c);
      assert B2Laws.Sets(a)[c] == B2.Free(a, c) && B3Laws.Sets(b)[c] == B3.Free(b, c);
    }
    forall c: nat | 8 <= c < 49
      ensures B3.Free(b', c) == {}
    {
      assert B3Laws.Sets(b')[c] == B3.Free(b', c) && B3Laws.Sets(b)[c] == B3.Free(b, c);
    }
  }

  /**
    * On matching scripts, each legal for its own grain, B2 and B3 issue the same offsets in the same order
    * and end with the same occupancy words. The scripts may merge a leaf here and a sub-leaf there.
    */
  lemma {:induction false} MatchingRuns(a: B2.Table, b: B3.Table, ops: seq<Op>, ops': seq<Op>)
    requires Same(a, b) && B2Runs.LegalRun(a, ops) && B3Runs.LegalRun(b, ops') && AllMatch(ops, ops')
    ensures B2Runs.Outs(a, ops) == B3Runs.Outs(b, ops')
    ensures Same(B2Runs.Tables(a, ops)[|ops|], B3Runs.Tables(b, ops')[|ops|])
    ensures B2Runs.Tables(a, ops)[|ops|].occ == B3Runs.Tables(b, ops')[|ops|].occ
    decreases |ops|
  {
    if ops == [] {
      SameOccupancy(a, b);
    } else {
      B2Runs.RunUnfolds(a, ops);
      B3Runs.RunUnfolds(b, ops');
      LockstepNext(a, b, ops[0], ops'[0]);
      hide B2Runs.Next, B3Runs.Next, B2Runs.Legal, B3Runs.Legal, Same, B2.Inv, B3.Inv, B2.Shape, B3.Shape;
      hide B2Runs.Outs, B2Runs.Tables, B3Runs.Outs, B3Runs.Tables, B2Runs.LegalRun, B3Runs.LegalRun, Matches;
      MatchingRuns(B2Runs.Next(a, ops[0]).0, B3Runs.Next(b, ops'[0]).0, ops[1..], ops'[1..]);
    }
  }

  lemma LegalStepFiner(a: B2.Table, b: B3.Table, op: Op)
    requires Same(a, b) && B2Runs.Legal(a, op) && !op.Prime? && !op.Merge?
    ensures B3Runs.Legal(b, op) && Same(B2Runs.Next(a, op).0, B3Runs.Next(b, op).0)
    ensures B2.Inv(B2Runs.Next(a, op).0) && B3.Inv(B3Runs.Next(b, op).0)
  {
    FitsFiner(a, b, op.cls, Retired(op));
    hide B2Runs.Next, B3Runs.Next;
    LockstepNext(a, b, op, op);
  }

  /** A plain script that suits B2 suits B3. */
  lemma {:induction false} LegalFiner(a: B2.Table, b: B3.Table, ops: seq<Op>)
    requires Same(a, b) && B2Runs.LegalRun(a, ops) && Plain(ops)
    ensures B3Runs.LegalRun(b, ops)
    decreases |ops|
  {
    if ops != [] {
      hide B2Runs.Next, B3Runs.Next, B2Runs.Legal, B3Runs.Legal, Same, B2.Inv, B3.Inv, B2.Shape, B3.Shape;
      hide B2Runs.LegalRun, B3Runs.LegalRun, Matches, Step, Smallest;
      B2Runs.RunUnfolds(a, ops);
      LegalStepFiner(a, b, ops[0]);
      LegalFiner(B2Runs.Next(a, ops[0]).0, B3Runs.Next(b, ops[0]).0, ops[1..]);
      B3Runs.RunStarts(b, ops[0], ops[1..]);
      assert [ops[0]] + ops[1..] == ops;
    }
  }

  /**
    * On every script of the interface that keeps each 64 KiB leaf to one class at a time, B2 and B3 issue
    * the same offsets in the same order and end with the same occupancy words.
    */
  lemma LockstepRun(a: B2.Table, b: B3.Table, ops: seq<Op>)
    requires Same(a, b) && B2Runs.LegalRun(a, ops) && Plain(ops)
    ensures B3Runs.LegalRun(b, ops)
    ensures B2Runs.Outs(a, ops) == B3Runs.Outs(b, ops)
    ensures Same(B2Runs.Tables(a, ops)[|ops|], B3Runs.Tables(b, ops)[|ops|])
    ensures B2Runs.Tables(a, ops)[|ops|].occ == B3Runs.Tables(b, ops)[|ops|].occ
  {
    LegalFiner(a, b, ops);
    assert AllMatch(ops, ops);
    MatchingRuns(a, b, ops, ops);
  }

  /** In particular from fresh tables. */
  lemma FreshLockstep(ops: seq<Op>)
    requires B2.Inv(B2.Empty()) && B3.Inv(B3.Empty()) && B2Runs.LegalRun(B2.Empty(), ops) && Plain(ops)
    ensures B3Runs.LegalRun(B3.Empty(), ops) && B2Runs.Outs(B2.Empty(), ops) == B3Runs.Outs(B3.Empty(), ops)
    ensures B2Runs.Tables(B2.Empty(), ops)[|ops|].occ == B3Runs.Tables(B3.Empty(), ops)[|ops|].occ
  {
    FreshTables();
    LockstepRun(B2.Empty(), B3.Empty(), ops);
  }

  /** Fresh tables start in step. */
  lemma FreshTables()
    ensures Same(B2.Empty(), B3.Empty())
  {
    B2.EmptyIsValid();
    B3.EmptyIsValid();
  }
}
