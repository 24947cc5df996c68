/** Whole runs of the linked lists, as runs of the abstract free sets. */
module ListRuns {
  import opened FreeSets
  import opened Scripts
  import opened ListTable
  import opened ListLaws

  /** The lists that the table holds. */
  ghost function StacksOf(t: Table): (st: Stacks)
    requires Inv(t)
    ensures Rep(t, st)
  {
    var st :| Rep(t, st);
    st
  }

  /** The free sets of all classes. */
  ghost function Sets(t: Table): Classes
    requires Inv(t)
  {
    StackSets(StacksOf(t))
  }

  /** What the callers of the linked models owe: no double retire. A region comes in slot by slot, as a flush. */
  ghost predicate Legal(t: Table, op: Op)
    requires Shape(t)
  {
    op.cls < 8 && !op.Prime? && !op.Merge? && Retirable(t, Retired(op))
  }

  /** One operation and what it issues. */
  function Next(t: Table, op: Op): (Table, seq<nat>)
    requires Inv(t) && Shape(t) && Legal(t, op)
  {
    match op
    case Retire(c, off) =>
      assert Retired(op)[0] == off;
      (ListTable.Retire(t, c, off), [])
    case Pop(c) =>
      PopKeepsInv(t, c);
      var (t', r) := ListTable.Pop(t, c);
      (t', if r == None then [] else [r.value])
    case Drain(c, n) => PopMany(t, c, n)
    case Flush(c, offs) =>
      assert Retirable(t, offs);
      (RetireMany(t, c, offs), [])
  }

  /** What an operation does to the lists. */
  ghost function NextStacks(st: Stacks, op: Op): Stacks
    requires op.cls < |st|
  {
    st[op.cls := Reverse(Retired(op)) + st[op.cls][Taken(Asked(op), st[op.cls])..]]
  }

  /** Retires and flushes push onto the list, pops and drains take its top, in its order: LIFO. */
  lemma NextIsLifo(t: Table, op: Op)
    requires Inv(t) && Shape(t) && Legal(t, op)
    ensures Inv(Next(t, op).0) && StacksOf(Next(t, op).0) == NextStacks(StacksOf(t), op)
    ensures Next(t, op).1 == StacksOf(t)[op.cls][..Taken(Asked(op), StacksOf(t)[op.cls])]
  {
    hide Chain, Apart, Covers, ListTable.Retire, ListTable.Pop;
    var t', st := Next(t, op).0, StacksOf(t);
    match op {
      case Retire(c, off) =>
        assert Retired(op)[0] == off;
        RetireEffect(t, st, c, off);
        assert Reverse([off]) == [off] && st[c][0..] == st[c];
      case Pop(c) =>
        PopEffect(t, st, c);
        var k := Taken(1, st[c]);
        assert [] + st[c][k..] == st[c][k..];
        if st[c] == [] {
          assert st[c := st[c][0..]] == st;
        }
      case Drain(c, n) =>
        PopManyEffect(t, st, c, n);
        assert [] + st[c][Taken(n, st[c])..] == st[c][Taken(n, st[c])..];
      case Flush(c, offs) =>
        RetireManyEffect(t, st, c, offs);
        assert st[c][0..] == st[c];
    }
    assert Rep(t', NextStacks(st, op));
    hide Rep;
    StacksUnique(t', StacksOf(t'), NextStacks(st, op));
  }

  /** Taking the first `k` of a list without repeats splits its elements. */
  lemma SplitElements(s: seq<nat>, k: nat)
    requires Distinct(s) && k <= |s|
    ensures Distinct(s[..k]) && |Elements(s)| == |s|
    ensures Elements(s[..k]) <= Elements(s) && Elements(s[k..]) == Elements(s) - Elements(s[..k])
  {
    SizeOfDistinct(s);
    TailApart(s, k);
    hide Distinct;
    ElementsOfConcat(s[..k], s[k..]);
    assert s[..k] + s[k..] == s;
  }

  lemma TailApart(s: seq<nat>, k: nat)
    requires Distinct(s) && k <= |s|
    ensures Distinct(s[..k]) && forall x | x in s[k..] :: x !in s[..k]
  {
    forall x | x in s[k..]
      ensures x !in s[..k]
    {
      var i :| k <= i < |s| && s[i] == x;
    }
  }

  function StackSets(st: Stacks): Classes
    requires |st| == 8
  {
    seq(8, c requires 0 <= c < 8 => Elements(st[c]))
  }

  lemma StackStep(st: Stacks, op: Op)
    requires |st| == 8 && op.cls < 8 && Apart(st)
    ensures Step(StackSets(st), op, st[op.cls][..Taken(Asked(op), st[op.cls])], StackSets(NextStacks(st, op)))
  {
    hide Elements, Reverse, Distinct, Step;
    var s, k := st[op.cls], Taken(Asked(op), st[op.cls]);
    assert Distinct(s);
    SplitElements(s, k);
    ElementsOfConcat(Reverse(Retired(op)), s[k..]);
    ReverseElements(Retired(op));
    var a, b := StackSets(st), StackSets(NextStacks(st, op));
    StepIntro(a, op, s[..k], b);
  }

  /** Every operation keeps proper lists and is a step of the abstract free sets. */
  lemma NextRefines(t: Table, op: Op)
    requires Inv(t) && Shape(t) && Legal(t, op)
    ensures var (t', out) := Next(t, op); Inv(t') && Step(Sets(t), op, out, Sets(t'))
  {
    hide Chain, Apart, Covers, Next, NextStacks, Step;
    NextIsLifo(t, op);
    StackStep(StacksOf(t), op);
  }

  ghost predicate LegalRun(t: Table, ops: seq<Op>)
    requires Inv(t) && Shape(t)
    decreases |ops|
  {
    ops == [] || (Legal(t, ops[0]) && (NextRefines(t, ops[0]); LegalRun(Next(t, ops[0]).0, ops[1..])))
  }

  /** The tables before and after every operation. */
  function Tables(t: Table, ops: seq<Op>): (r: seq<Table>)
    requires Inv(t) && Shape(t) && LegalRun(t, ops)
    ensures |r| == |ops| + 1 && r[0] == t
    ensures forall i | 0 <= i < |r| :: Inv(r[i])
    decreases |ops|
  {
    if ops == [] then [t] else NextRefines(t, ops[0]); [t] + Tables(Next(t, ops[0]).0, ops[1..])
  }

  /** What every operation issues. */
  function Outs(t: Table, ops: seq<Op>): (r: seq<seq<nat>>)
    requires Inv(t) && Shape(t) && LegalRun(t, ops)
    ensures |r| == |ops|
    decreases |ops|
  {
    if ops == [] then []
    else
      NextRefines(t, ops[0]);
      [Next(t, ops[0]).1] + Outs(Next(t, ops[0]).0, ops[1..])
  }

  /** A run is its first operation and the run of the rest. */
  lemma RunUnfolds(t: Table, ops: seq<Op>)
    requires Inv(t) && Shape(t) && LegalRun(t, ops) && ops != []
    ensures Legal(t, ops[0]) && Inv(Next(t, ops[0]).0) && Shape(Next(t, ops[0]).0) && LegalRun(Next(t, ops[0]).0, ops[1..])
    ensures Outs(t, ops) == [Next(t, ops[0]).1] + Outs(Next(t, ops[0]).0, ops[1..])
    ensures Tables(t, ops) == [t] + Tables(Next(t, ops[0]).0, ops[1..])
  {
    hide Next, Legal, Chain, Apart, Covers, Step, Sets;
    NextRefines(t, ops[0]);
  }

  ghost function AllSets(tables: seq<Table>): (r: seq<Classes>)
    requires forall i | 0 <= i < |tables| :: Inv(tables[i])
    ensures |r| == |tables| && forall i | 0 <= i < |r| :: r[i] == Sets(tables[i])
  {
    seq(|tables|, i requires 0 <= i < |tables| => Sets(tables[i]))
  }

  lemma AllSetsCons(t: Table, tables: seq<Table>)
    requires Inv(t) && forall i | 0 <= i < |tables| :: Inv(tables[i])
    ensures AllSets([t] + tables) == [Sets(t)] + AllSets(tables)
  {
    hide Inv, Sets;
  }

  /** Every legal run keeps acyclic, disjoint lists that cover the bitmap, and is a run of the free sets. */
  lemma {:induction false} RunRefines(t: Table, ops: seq<Op>)
    requires Inv(t) && Shape(t) && LegalRun(t, ops)
    ensures Run(AllSets(Tables(t, ops)), ops, Outs(t, ops))
    decreases |ops|
  {
    hide Next, Inv, Shape, Step, Sets, Run, AllSets, Tables, Outs, LegalRun, Legal;
    if ops == [] {
      RunOfNone(t);
    } else {
      RunUnfolds(t, ops);
      NextRefines(t, ops[0]);
      var (t1, out) := Next(t, ops[0]);
      RunRefines(t1, ops[1..]);
      RunCons(Sets(t), ops[0], out, AllSets(Tables(t1, ops[1..])), ops[1..], Outs(t1, ops[1..]));
      AllSetsCons(t, Tables(t1, ops[1..]));
      assert [ops[0]] + ops[1..] == ops;
    }
  }

  lemma RunOfNone(t: Table)
    requires Inv(t) && Shape(t)
    ensures Run(AllSets(Tables(t, [])), [], Outs(t, []))
  {
  }

  /** An operation in front of a run is a run. */
  lemma RunStarts(t: Table, op: Op, rest: seq<Op>)
    requires Inv(t) && Shape(t) && Legal(t, op) && Inv(Next(t, op).0) && Shape(Next(t, op).0) && LegalRun(Next(t, op).0, rest)
    ensures LegalRun(t, [op] + rest) && Outs(t, [op] + rest) == [Next(t, op).1] + Outs(Next(t, op).0, rest)
  {
    hide Next, Legal, Inv, Shape, Step, Sets;
    assert ([op] + rest)[1..] == rest;
  }

  lemma RunOfOne(t: Table, op: Op)
    requires Inv(t) && Shape(t) && Legal(t, op)
    ensures LegalRun(t, [op]) && Outs(t, [op]) == [Next(t, op).1]
  {
    hide Next, Legal, Chain, Apart, Covers, Step, Sets;
    NextRefines(t, op);
    assert [op][1..] == [];
  }

  /** From any table, rounds of any classes and batch sizes can be run, each flushing back what it drained. */
  lemma {:induction false} CanFlushBack(t: Table, rounds: seq<(nat, nat)>) returns (ops: seq<Op>)
    requires Inv(t) && Shape(t) && forall i | 0 <= i < |rounds| :: rounds[i].0 < 8
    ensures LegalRun(t, ops) && FlushesBack(ops, Outs(t, ops)) && Rounds(ops) == rounds
    decreases |rounds|
  {
    hide Next, Legal, Inv, Shape, Step, Sets;
    if rounds == [] {
      ops := [];
    } else {
      hide LegalRun, Outs;
      var (c, n) := rounds[0];
      FlushBackIsLegal(t, c, n);
      var (t1, out) := Next(t, Drain(c, n));
      var t2 := Next(t1, Flush(c, out)).0;
      var rest := CanFlushBack(t2, rounds[1..]);
      RunStarts(t1, Flush(c, out), rest);
      RunStarts(t, Drain(c, n), [Flush(c, out)] + rest);
      ops := [Drain(c, n), Flush(c, out)] + rest;
      assert ops == [Drain(c, n)] + ([Flush(c, out)] + rest) && ops[2..] == rest;
      assert Outs(t, ops) == [out, []] + Outs(t2, rest);
      assert Outs(t, ops)[2..] == Outs(t2, rest);
    }
  }

  lemma FlushBackIsLegal(t: Table, c: nat, n: nat)
    requires Inv(t) && Shape(t) && c < 8
    ensures Legal(t, Drain(c, n))
    ensures var (t1, out) := Next(t, Drain(c, n));
      && Inv(t1) && Shape(t1) && Legal(t1, Flush(c, out))
      && Inv(Next(t1, Flush(c, out)).0) && Shape(Next(t1, Flush(c, out)).0) && Next(t1, Flush(c, out)).1 == []
  {
    hide Chain, Apart, Covers;
    DrainThenFlush(t, StacksOf(t), c, n);
    assert Retirable(t, []);
    NextRefines(t, Drain(c, n));
    var (t1, out) := Next(t, Drain(c, n));
    NextRefines(t1, Flush(c, out));
  }
}
