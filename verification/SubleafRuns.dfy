/** Whole runs of candidate B3: the invariant, the abstract free sets, and the cost of the lazy cursor. */
module SubleafRuns {
  import opened Bitmaps
  import opened FreeSets
  import opened Scripts
  import opened SubleafTable
  import opened SubleafLaws

  /**
    * What the callers of B3 owe: a class of the table, slots of the segment, sub-leaves that fit; for a
    * merge, one sub-leaf's words for the class it is bound to, and a union with a bit.
    */
  ghost predicate Legal(t: Table, op: Op)
    requires Shape(t)
  {
    && op.cls < 49
    && match op
       case Prime(c, sl) => sl < 1024 && Fits(t, c, sl)
       case Merge(c, base, src) =>
         base < 4096 && base % 4 == 0 && |src| == 4 && t.hdr[base / 4].bound == c && UnionNonEmpty(t, base / 4, src)
       case _ => AllFit(t, op.cls, Retired(op))
  }

  /** One operation and what it issues. */
  function Next(t: Table, op: Op): (Table, seq<nat>)
    requires Inv(t) && Legal(t, op)
  {
    match op
    case Retire(c, off) =>
      assert AllFit(t, c, Retired(op)) && Retired(op)[0] == off;
      (SubleafTable.Retire(t, c, off), [])
    case Pop(c) =>
      var (t', r) := SubleafTable.Pop(t, c);
      (t', if r == None then [] else [r.value])
    case Drain(c, n) => PopMany(t, c, n)
    case Flush(c, offs) =>
      assert AllFit(t, c, offs);
      (RetireMany(t, c, offs).(spanRetires := t.spanRetires), [])
    case Prime(c, sl) => (SubleafTable.Prime(t, c, sl), [])
    case Merge(_, base, src) => (OrMergeRegion(t, base / 4, src), [])
  }

  /** Class by class, what makes two tables a step apart. */
  lemma FreeStep(t: Table, op: Op, out: seq<nat>, t': Table)
    requires Shape(t) && Shape(t') && op.cls < 49
    requires forall d: nat | d < 49 && d != op.cls :: Free(t', d) == Free(t, d)
    requires out == Smallest(Free(t, op.cls), Asked(op))
    requires Free(t', op.cls) == Free(t, op.cls) - Elements(out) + Elements(Retired(op))
    ensures Step(Sets(t), op, out, Sets(t'))
  {
    hide Free;
    SmallestAreSmallest(Free(t, op.cls), Asked(op));
  }

  /** Every operation keeps the invariant, issues the smallest slots, and is a step of the free sets. */
  lemma NextRefines(t: Table, op: Op)
    requires Inv(t) && Legal(t, op)
    ensures var (t', out) := Next(t, op);
      && Inv(t')
      && out == Smallest(Free(t, op.cls), Asked(op))
      && Step(Sets(t), op, out, Sets(t'))
      && (forall d: nat | d < 49 && d != op.cls :: t'.cursor[d] == t.cursor[d])
  {
    hide MasksExact, LinksExact, CursorsLow, SubleafTable.Pop, SubleafTable.Retire, PopMany, RetireMany, Free;
    hide SubleafTable.Prime, OrMergeRegion, UnionNonEmpty;
    var (t', out) := Next(t, op);
    match op
    case Retire(c, off) =>
      assert Retired(op)[0] == off;
      RetireEffect(t, c, off);
      assert Elements([off]) == {off};
      FreeStep(t, op, out, t');
    case Pop(c) =>
      PopEffect(t, c);
      assert Smallest(Free(t, c), 1) == out;
      FreeStep(t, op, out, t');
    case Drain(c, n) =>
      PopManyEffect(t, c, n);
      FreeStep(t, op, out, t');
    case Flush(c, offs) =>
      RetireManyEffect(t, c, offs);
      SpanAside(RetireMany(t, c, offs), t');
      FreeStep(t, op, out, t');
    case Prime(_, _) => PrimeRefines(t, op);
    case Merge(_, _, _) => MergeRefines(t, op);
  }

  lemma PrimeRefines(t: Table, op: Op)
    requires Inv(t) && Legal(t, op) && op.Prime?
    ensures var (t', out) := Next(t, op);
      Inv(t') && out == [] && Step(Sets(t), op, out, Sets(t')) && t'.cursor == t.cursor
  {
    hide MasksExact, LinksExact, CursorsLow, SubleafTable.Prime, Free, Bindings;
    PrimeEffect(t, op.cls, op.unit);
    FreeStep(t, op, [], Next(t, op).0);
  }

  lemma MergeRefines(t: Table, op: Op)
    requires Inv(t) && Legal(t, op) && op.Merge?
    ensures var (t', out) := Next(t, op);
      && Inv(t') && out == [] && Step(Sets(t), op, out, Sets(t'))
      && (forall d: nat | d < 49 && d != op.cls :: t'.cursor[d] == t.cursor[d])
  {
    hide MasksExact, LinksExact, CursorsLow, OrMergeRegion, RegionSlots, Free, Bindings;
    MergeEffect(t, op.base / 4, op.src);
    assert 4 * (op.base / 4) == op.base;
    MergeRetires(op);
    FreeStep(t, op, [], Next(t, op).0);
  }

  /** Every operation of the script is legal when its turn comes. */
  ghost predicate LegalRun(t: Table, ops: seq<Op>)
    requires Inv(t)
    decreases |ops|
  {
    ops == [] || (Legal(t, ops[0]) && (NextRefines(t, ops[0]); LegalRun(Next(t, ops[0]).0, ops[1..])))
  }

  /** The tables before and after every operation. */
  function Tables(t: Table, ops: seq<Op>): (r: seq<Table>)
    requires Inv(t) && LegalRun(t, ops)
    ensures |r| == |ops| + 1 && r[0] == t
    ensures forall i | 0 <= i < |r| :: Inv(r[i])
    decreases |ops|
  {
    if ops == [] then [t] else NextRefines(t, ops[0]); [t] + Tables(Next(t, ops[0]).0, ops[1..])
  }

  /** What every operation issues. */
  function Outs(t: Table, ops: seq<Op>): (r: seq<seq<nat>>)
    requires Inv(t) && LegalRun(t, ops)
    ensures |r| == |ops|
    decreases |ops|
  {
    if ops == [] then []
    else
      NextRefines(t, ops[0]);
      [Next(t, ops[0]).1] + Outs(Next(t, ops[0]).0, ops[1..])
  }

  /** A run is its first operation and the run of the rest. */
  lemma RunUnfolds(t: Table, ops: seq<Op>)
    requires Inv(t) && LegalRun(t, ops) && ops != []
    ensures Legal(t, ops[0]) && Inv(Next(t, ops[0]).0) && LegalRun(Next(t, ops[0]).0, ops[1..])
    ensures Outs(t, ops) == [Next(t, ops[0]).1] + Outs(Next(t, ops[0]).0, ops[1..])
    ensures Tables(t, ops) == [t] + Tables(Next(t, ops[0]).0, ops[1..])
    ensures Tables(t, ops)[|ops|] == Tables(Next(t, ops[0]).0, ops[1..])[|ops| - 1]
  {
    hide Next, Legal, Inv, Step, Smallest, Sets, Free;
    NextRefines(t, ops[0]);
  }

  /** The free sets of a sequence of tables. */
  function AllSets(tables: seq<Table>): (r: seq<Classes>)
    requires forall i | 0 <= i < |tables| :: Shape(tables[i])
    ensures |r| == |tables| && forall i | 0 <= i < |r| :: r[i] == Sets(tables[i])
  {
    seq(|tables|, i requires 0 <= i < |tables| => Sets(tables[i]))
  }

  lemma AllSetsCons(t: Table, tables: seq<Table>)
    requires Shape(t) && forall i | 0 <= i < |tables| :: Shape(tables[i])
    ensures AllSets([t] + tables) == [Sets(t)] + AllSets(tables)
  {
    hide Shape, Sets;
  }

  /** Every legal run of B3 keeps the invariant and is a run of the abstract free sets. */
  lemma {:induction false} RunRefines(t: Table, ops: seq<Op>)
    requires Inv(t) && LegalRun(t, ops)
    ensures Run(AllSets(Tables(t, ops)), ops, Outs(t, ops))
    decreases |ops|
  {
    hide Next, MasksExact, LinksExact, CursorsLow, Step, Sets, Run, AllSets, Tables, Outs, LegalRun, Legal, Smallest, Free;
    if ops == [] {
      RunOfNone(t);
    } else {
      RunUnfolds(t, ops);
      NextRefines(t, ops[0]);
      var (t1, out) := Next(t, ops[0]);
      RunRefines(t1, ops[1..]);
      RunCons(Sets(t), ops[0], out, AllSets(Tables(t1, ops[1..])), ops[1..], Outs(t1, ops[1..]));
      AllSetsCons(t, Tables(t1, ops[1..]));
      assert [ops[0]] + ops[1..] == ops;
    }
  }

  lemma RunOfNone(t: Table)
    requires Inv(t)
    ensures Run(AllSets(Tables(t, [])), [], Outs(t, []))
  {
  }

  // ---- Rounds that put back what they took ----

  /** An operation in front of a run is a run. */
  lemma RunStarts(t: Table, op: Op, rest: seq<Op>)
    requires Inv(t) && Legal(t, op) && Inv(Next(t, op).0) && LegalRun(Next(t, op).0, rest)
    ensures LegalRun(t, [op] + rest) && Outs(t, [op] + rest) == [Next(t, op).1] + Outs(Next(t, op).0, rest)
  {
    hide Next, Legal, Inv, Step, Smallest, Sets, Free;
    assert ([op] + rest)[1..] == rest;
  }

  lemma RunOfOne(t: Table, op: Op)
    requires Inv(t) && Legal(t, op)
    ensures LegalRun(t, [op]) && Outs(t, [op]) == [Next(t, op).1]
  {
    hide Next, Legal, Inv, Step, Smallest, Sets, Free;
    NextRefines(t, op);
    assert [op][1..] == [];
  }

  /** From any table, rounds of any classes and batch sizes can be run, each flushing back what it drained. */
  lemma {:induction false} CanFlushBack(t: Table, rounds: seq<(nat, nat)>) returns (ops: seq<Op>)
    requires Inv(t) && forall i | 0 <= i < |rounds| :: rounds[i].0 < 49
    ensures LegalRun(t, ops) && FlushesBack(ops, Outs(t, ops)) && Rounds(ops) == rounds
    decreases |rounds|
  {
    hide Next, Legal, Inv, Step, Smallest, Sets, Free;
    if rounds == [] {
      ops := [];
    } else {
      hide LegalRun, Outs;
      var (c, n) := rounds[0];
      FlushBackIsLegal(t, c, n);
      var (t1, out) := Next(t, Drain(c, n));
      var t2 := Next(t1, Flush(c, out)).0;
      var rest := CanFlushBack(t2, rounds[1..]);
      RunStarts(t1, Flush(c, out), rest);
      RunStarts(t, Drain(c, n), [Flush(c, out)] + rest);
      ops := [Drain(c, n), Flush(c, out)] + rest;
      assert ops == [Drain(c, n)] + ([Flush(c, out)] + rest) && ops[2..] == rest;
      assert Outs(t, ops) == [out, []] + Outs(t2, rest);
      assert Outs(t, ops)[2..] == Outs(t2, rest);
    }
  }

  /** What a drain issued may be flushed back. */
  lemma FlushBackIsLegal(t: Table, c: nat, n: nat)
    requires Inv(t) && c < 49
    ensures Legal(t, Drain(c, n))
    ensures var (t1, out) := Next(t, Drain(c, n));
      && Inv(t1) && Legal(t1, Flush(c, out))
      && Inv(Next(t1, Flush(c, out)).0) && Next(t1, Flush(c, out)).1 == []
  {
    DrainThenFlush(t, c, n);
    var (t1, out) := Next(t, Drain(c, n));
    assert AllFit(t, c, []);
    NextRefines(t1, Flush(c, out));
  }
}
