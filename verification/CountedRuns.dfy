/** Whole runs of candidate B, as runs of the abstract free sets. */
module CountedRuns {
  import opened Bitmaps
  import opened FreeSets
  import opened Scripts
  import opened CountedTable
  import opened CountedLaws

  /**
    * What the callers of B owe: one class a leaf at a time, and no double retire; for a merge, a region
    * that is not empty into a leaf that is.
    */
  ghost predicate Legal(t: Table, op: Op)
    requires Shape(t)
  {
    && op.cls < 8
    && match op
       case Prime(c, leaf) => leaf < 64 && Fits(t, c, leaf)
       case Merge(c, base, src) =>
         && base < 4096 && base % 64 == 0 && |src| == 64 && t.hdr[base / 64].bound == c
         && LeafSlots(t.occ, base / 64) == {} && RegionSlots(base, src) != {}
       case _ => Retirable(t, op.cls, Retired(op))
  }

  /** One operation and what it issues. */
  function Next(t: Table, op: Op): (Table, seq<nat>)
    requires Inv(t) && Legal(t, op)
  {
    match op
    case Retire(c, off) =>
      assert Retired(op)[0] == off;
      (CountedTable.Retire(t, c, off), [])
    case Pop(c) =>
      InvIsWellFormed(t);
      var (t', r) := CountedTable.Pop(t, c);
      (t', if r == None then [] else [r.value])
    case Drain(c, n) => PopMany(t, c, n)
    case Flush(c, offs) =>
      assert Retirable(t, c, offs);
      (RetireMany(t, c, offs), [])
    case Prime(c, leaf) => (CountedTable.Prime(t, c, leaf), [])
    case Merge(_, base, src) => (OrMergeRegion(t, base / 64, src), [])
  }

  lemma FreeStep(t: Table, op: Op, out: seq<nat>, t': Table)
    requires Shape(t) && Shape(t') && op.cls < 8
    requires forall d: nat | d < 8 && d != op.cls :: Free(t', d) == Free(t, d)
    requires Distinct(out) && Elements(out) <= Free(t, op.cls)
    requires |out| == (if Asked(op) < |Free(t, op.cls)| then Asked(op) else |Free(t, op.cls)|)
    requires Free(t', op.cls) == Free(t, op.cls) - Elements(out) + Elements(Retired(op))
    ensures Step(Sets(t), op, out, Sets(t'))
  {
    hide Free;
  }

  lemma Singleton(x: nat)
    ensures Distinct([]) && Elements([]) == {}
    ensures Distinct([x]) && Elements([x]) == {x}
  {
  }

  /** Every operation keeps the invariant and is a step of the abstract free sets. */
  lemma NextRefines(t: Table, op: Op)
    requires Inv(t) && Legal(t, op)
    ensures var (t', out) := Next(t, op); Inv(t') && Step(Sets(t), op, out, Sets(t'))
  {
    hide CountsExact, LinksExact, HintsInRange, CountedTable.Pop, CountedTable.Retire, PopMany, RetireMany, Free;
    hide Distinct, Elements, Bindings, Step, CountedTable.Prime, OrMergeRegion, LeafSlots, RegionSlots;
    var (t', out) := Next(t, op);
    Singleton(0);
    match op
    case Retire(c, off) =>
      assert Retired(op)[0] == off;
      RetireEffect(t, c, off);
      Singleton(off);
      FreeStep(t, op, out, t');
    case Pop(c) =>
      PopEffect(t, c);
      if out != [] {
        Singleton(out[0]);
      }
      FreeStep(t, op, out, t');
    case Drain(c, n) =>
      PopManyEffect(t, c, n);
      FreeStep(t, op, out, t');
    case Flush(c, offs) =>
      RetireManyEffect(t, c, offs);
      FreeStep(t, op, out, t');
    case Prime(_, _) => PrimeRefines(t, op);
    case Merge(_, _, _) => MergeRefines(t, op);
  }

  lemma PrimeRefines(t: Table, op: Op)
    requires Inv(t) && Legal(t, op) && op.Prime?
    ensures var (t', out) := Next(t, op); Inv(t') && out == [] && Step(Sets(t), op, out, Sets(t'))
  {
    hide CountsExact, LinksExact, HintsInRange, CountedTable.Prime, Free, Bindings;
    PrimeEffect(t, op.cls, op.unit);
    FreeStep(t, op, [], Next(t, op).0);
  }

  lemma MergeRefines(t: Table, op: Op)
    requires Inv(t) && Legal(t, op) && op.Merge?
    ensures var (t', out) := Next(t, op); Inv(t') && out == [] && Step(Sets(t), op, out, Sets(t'))
  {
    hide CountsExact, LinksExact, HintsInRange, OrMergeRegion, RegionSlots, LeafSlots, Free, Bindings;
    assert 64 * (op.base / 64) == op.base;
    MergeKeepsInvariantIff(t, op.base / 64, op.src);
    MergeFree(t, op.base / 64, op.src);
    MergeRetires(op);
    FreeStep(t, op, [], Next(t, op).0);
  }

  ghost predicate LegalRun(t: Table, ops: seq<Op>)
    requires Inv(t)
    decreases |ops|
  {
    ops == [] || (Legal(t, ops[0]) && (NextRefines(t, ops[0]); LegalRun(Next(t, ops[0]).0, ops[1..])))
  }

  /** The tables before and after every operation. */
  function Tables(t: Table, ops: seq<Op>): (r: seq<Table>)
    requires Inv(t) && LegalRun(t, ops)
    ensures |r| == |ops| + 1 && r[0] == t
    ensures forall i | 0 <= i < |r| :: Inv(r[i])
    decreases |ops|
  {
    if ops == [] then [t] else NextRefines(t, ops[0]); [t] + Tables(Next(t, ops[0]).0, ops[1..])
  }

  /** What every operation issues. */
  function Outs(t: Table, ops: seq<Op>): (r: seq<seq<nat>>)
    requires Inv(t) && LegalRun(t, ops)
    ensures |r| == |ops|
    decreases |ops|
  {
    if ops == [] then []
    else
      NextRefines(t, ops[0]);
      [Next(t, ops[0]).1] + Outs(Next(t, ops[0]).0, ops[1..])
  }

  /** A run is its first operation and the run of the rest. */
  lemma RunUnfolds(t: Table, ops: seq<Op>)
    requires Inv(t) && LegalRun(t, ops) && ops != []
    ensures Legal(t, ops[0]) && Inv(Next(t, ops[0]).0) && LegalRun(Next(t, ops[0]).0, ops[1..])
    ensures Outs(t, ops) == [Next(t, ops[0]).1] + Outs(Next(t, ops[0]).0, ops[1..])
    ensures Tables(t, ops) == [t] + Tables(Next(t, ops[0]).0, ops[1..])
  {
    hide Next, Legal, Inv, Step, Sets, Free;
    NextRefines(t, ops[0]);
  }

  function AllSets(tables: seq<Table>): (r: seq<Classes>)
    requires forall i | 0 <= i < |tables| :: Shape(tables[i])
    ensures |r| == |tables| && forall i | 0 <= i < |r| :: r[i] == Sets(tables[i])
  {
    seq(|tables|, i requires 0 <= i < |tables| => Sets(tables[i]))
  }

  lemma AllSetsCons(t: Table, tables: seq<Table>)
    requires Shape(t) && forall i | 0 <= i < |tables| :: Shape(tables[i])
    ensures AllSets([t] + tables) == [Sets(t)] + AllSets(tables)
  {
    hide Shape, Sets;
  }

  /** Every legal run of B keeps the invariant and is a run of the abstract free sets. */
  lemma {:induction false} RunRefines(t: Table, ops: seq<Op>)
    requires Inv(t) && LegalRun(t, ops)
    ensures Run(AllSets(Tables(t, ops)), ops, Outs(t, ops))
    decreases |ops|
  {
    hide Next, CountsExact, LinksExact, HintsInRange, Step, Sets, Run, AllSets, Tables, Outs, LegalRun, Legal, Free;
    if ops == [] {
      RunOfNone(t);
    } else {
      RunUnfolds(t, ops);
      NextRefines(t, ops[0]);
      var (t1, out) := Next(t, ops[0]);
      RunRefines(t1, ops[1..]);
      RunCons(Sets(t), ops[0], out, AllSets(Tables(t1, ops[1..])), ops[1..], Outs(t1, ops[1..]));
      AllSetsCons(t, Tables(t1, ops[1..]));
      assert [ops[0]] + ops[1..] == ops;
    }
  }

  lemma RunOfNone(t: Table)
    requires Inv(t)
    ensures Run(AllSets(Tables(t, [])), [], Outs(t, []))
  {
  }

  /** An operation in front of a run is a run. */
  lemma RunStarts(t: Table, op: Op, rest: seq<Op>)
    requires Inv(t) && Legal(t, op) && Inv(Next(t, op).0) && LegalRun(Next(t, op).0, rest)
    ensures LegalRun(t, [op] + rest) && Outs(t, [op] + rest) == [Next(t, op).1] + Outs(Next(t, op).0, rest)
  {
    hide Next, Legal, Inv, Step, Sets, Free;
    assert ([op] + rest)[1..] == rest;
  }

  lemma RunOfOne(t: Table, op: Op)
    requires Inv(t) && Legal(t, op)
    ensures LegalRun(t, [op]) && Outs(t, [op]) == [Next(t, op).1]
  {
    hide Next, Legal, Inv, Step, Sets, Free;
    NextRefines(t, op);
    assert [op][1..] == [];
  }

  /** From any table, rounds of any classes and batch sizes can be run, each flushing back what it drained. */
  lemma {:induction false} CanFlushBack(t: Table, rounds: seq<(nat, nat)>) returns (ops: seq<Op>)
    requires Inv(t) && forall i | 0 <= i < |rounds| :: rounds[i].0 < 8
    ensures LegalRun(t, ops) && FlushesBack(ops, Outs(t, ops)) && Rounds(ops) == rounds
    decreases |rounds|
  {
    hide Next, Legal, Inv, Step, Sets, Free;
    if rounds == [] {
      ops := [];
    } else {
      hide LegalRun, Outs;
      var (c, n) := rounds[0];
      FlushBackIsLegal(t, c, n);
      var (t1, out) := Next(t, Drain(c, n));
      var t2 := Next(t1, Flush(c, out)).0;
      var rest := CanFlushBack(t2, rounds[1..]);
      RunStarts(t1, Flush(c, out), rest);
      RunStarts(t, Drain(c, n), [Flush(c, out)] + rest);
      ops := [Drain(c, n), Flush(c, out)] + rest;
      assert ops == [Drain(c, n)] + ([Flush(c, out)] + rest) && ops[2..] == rest;
      assert Outs(t, ops) == [out, []] + Outs(t2, rest);
      assert Outs(t, ops)[2..] == Outs(t2, rest);
    }
  }

  lemma FlushBackIsLegal(t: Table, c: nat, n: nat)
    requires Inv(t) && c < 8
    ensures Legal(t, Drain(c, n))
    ensures var (t1, out) := Next(t, Drain(c, n));
      && Inv(t1) && Legal(t1, Flush(c, out))
      && Inv(Next(t1, Flush(c, out)).0) && Next(t1, Flush(c, out)).1 == []
  {
    DrainThenFlush(t, c, n);
    var (t1, out) := Next(t, Drain(c, n));
    assert Retirable(t, c, []);
    NextRefines(t1, Flush(c, out));
  }
}
