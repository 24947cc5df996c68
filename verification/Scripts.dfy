/** Scripts over the interface that all five models share, and what holds of every run of one. */
module Scripts {
  import opened Words
  import opened Bitmaps
  import opened FreeSets

  /**
    * `Prime` binds a unit of the model (a leaf, a sub-leaf) to a class; `Merge` ORs the words `src` into
    * the occupancy words from `base` on, for the class that their unit is bound to.
    */
  datatype Op =
    | Retire(cls: nat, off: nat)
    | Pop(cls: nat)
    | Drain(cls: nat, n: nat)
    | Flush(cls: nat, offs: seq<nat>)
    | Prime(cls: nat, unit: nat)
    | Merge(cls: nat, base: nat, src: seq<Word>)

  /** The offsets an operation hands back; those of a merge in increasing order. */
  ghost function Retired(op: Op): seq<nat> {
    match op
    case Retire(_, off) => [off]
    case Flush(_, offs) => offs
    case Merge(_, base, src) => Smallest(RegionSlots(base, src), |RegionSlots(base, src)|)
    case _ => []
  }

  lemma MergeRetires(op: Op)
    requires op.Merge?
    ensures Elements(Retired(op)) == RegionSlots(op.base, op.src) && Distinct(Retired(op))
  {
    var region := RegionSlots(op.base, op.src);
    SmallestAreSmallest(region, |region|);
    SmallestOfAll(region, |region|);
  }

  /** The operations of the interface itself, without the region merge of the leaf models. */
  predicate Plain(ops: seq<Op>) {
    forall i | 0 <= i < |ops| :: !ops[i].Prime? && !ops[i].Merge?
  }

  /** Two calls that ask for as much, and hand back the same slots in whatever order and shape. */
  ghost predicate Matches(op: Op, op': Op) {
    op.cls == op'.cls && Asked(op) == Asked(op') && Elements(Retired(op)) == Elements(Retired(op'))
  }

  ghost predicate AllMatch(ops: seq<Op>, ops': seq<Op>) {
    |ops| == |ops'| && forall i | 0 <= i < |ops| :: Matches(ops[i], ops'[i])
  }

  /** How many offsets an operation asks for. */
  function Asked(op: Op): nat {
    match op
    case Pop(_) => 1
    case Drain(_, n) => n
    case _ => 0
  }

  /**
    * One operation on the abstract free sets: retires add; pops and drains take distinct members,
    * as many as were asked for or as there are; no other class changes.
    */
  ghost predicate Step(a: Classes, op: Op, out: seq<nat>, b: Classes) {
    && op.cls < |a| && |b| == |a|
    && (forall d | 0 <= d < |a| && d != op.cls :: b[d] == a[d])
    && Distinct(out) && Elements(out) <= a[op.cls]
    && |out| == (if Asked(op) < |a[op.cls]| then Asked(op) else |a[op.cls]|)
    && b[op.cls] == a[op.cls] - Elements(out) + Elements(Retired(op))
  }

  lemma StepIntro(a: Classes, op: Op, out: seq<nat>, b: Classes)
    requires op.cls < |a| && |b| == |a|
    requires forall d | 0 <= d < |a| && d != op.cls :: b[d] == a[d]
    requires Distinct(out) && Elements(out) <= a[op.cls]
    requires |out| == (if Asked(op) < |a[op.cls]| then Asked(op) else |a[op.cls]|)
    requires b[op.cls] == a[op.cls] - Elements(out) + Elements(Retired(op))
    ensures Step(a, op, out, b)
  {
  }

  /** A run: the states before and after every operation, and what each one issued. */
  ghost predicate Run(states: seq<Classes>, ops: seq<Op>, outs: seq<seq<nat>>) {
    && |states| == |ops| + 1 && |outs| == |ops|
    && forall i | 0 <= i < |ops| :: Step(states[i], ops[i], outs[i], states[i + 1])
  }

  /** A step in front of a run is a run. */
  lemma RunCons(a: Classes, op: Op, out: seq<nat>, states: seq<Classes>, ops: seq<Op>, outs: seq<seq<nat>>)
    requires Run(states, ops, outs) && Step(a, op, out, states[0])
    ensures Run([a] + states, [op] + ops, [out] + outs)
  {
    hide Step;
  }

  /** Everything issued for class `c`, with multiplicity. */
  function Issued(ops: seq<Op>, outs: seq<seq<nat>>, c: nat): multiset<nat>
    requires |outs| == |ops|
  {
    if ops == [] then multiset{}
    else
      var n := |ops| - 1;
      Issued(ops[..n], outs[..n], c) + (if ops[n].cls == c then multiset(outs[n]) else multiset{})
  }

  /** Everything retired for class `c`, with multiplicity. */
  ghost function Returned(ops: seq<Op>, c: nat): multiset<nat> {
    if ops == [] then multiset{}
    else
      var n := |ops| - 1;
      Returned(ops[..n], c) + (if ops[n].cls == c then multiset(Retired(ops[n])) else multiset{})
  }

  /** No double retire: what an operation hands back is free in no class, and is handed back once. */
  ghost predicate NoDoubleRetire(a: Classes, op: Op) {
    && Distinct(Retired(op))
    && forall x, d | x in Retired(op) && 0 <= d < |a| :: x !in a[d]
  }

  /** A run without double retires. */
  ghost predicate CleanRun(states: seq<Classes>, ops: seq<Op>) {
    |states| > |ops| && forall i | 0 <= i < |ops| :: NoDoubleRetire(states[i], ops[i])
  }

  lemma CleanCons(a: Classes, op: Op, states: seq<Classes>, ops: seq<Op>)
    requires NoDoubleRetire(a, op) && CleanRun(states, ops)
    ensures CleanRun([a] + states, [op] + ops)
  {
    hide NoDoubleRetire;
  }

  /** One operation conserves slots: what is free afterwards plus what came out is what was there plus what went in. */
  lemma StepConserves(a: Classes, op: Op, out: seq<nat>, b: Classes)
    requires Step(a, op, out, b) && NoDoubleRetire(a, op)
    ensures multiset(b[op.cls]) + multiset(out) == multiset(a[op.cls]) + multiset(Retired(op))
  {
    MultisetOfDistinct(out);
    MultisetOfDistinct(Retired(op));
    hide Elements, Retired, Asked, Distinct;
    var s, o, r := a[op.cls], Elements(out), Elements(Retired(op));
    assert r !! s;
    assert multiset(s - o + r) == multiset(s) - multiset(o) + multiset(r);
  }

  lemma Balance(
      after: multiset<nat>, out: multiset<nat>, before: multiset<nat>, back: multiset<nat>,
      came: multiset<nat>, start: multiset<nat>, went: multiset<nat>)
    requires after + out == before + back && before + came == start + went
    ensures after + (came + out) == start + (went + back)
  {
    forall x: nat
      ensures (after + (came + out))[x] == (start + (went + back))[x]
    {
      assert (after + out)[x] == (before + back)[x] && (before + came)[x] == (start + went)[x];
    }
  }

  /** Over every run without a double retire, each class's slots are conserved. */
  lemma {:induction false} Conservation(states: seq<Classes>, ops: seq<Op>, outs: seq<seq<nat>>, c: nat)
    requires Run(states, ops, outs) && CleanRun(states, ops) && c < |states[0]|
    ensures |states[|ops|]| == |states[0]|
    ensures multiset(states[|ops|][c]) + Issued(ops, outs, c) == multiset(states[0][c]) + Returned(ops, c)
    decreases |ops|
  {
    if ops != [] {
      var n := |ops| - 1;
      Conservation(states[..n + 1], ops[..n], outs[..n], c);
      assert Step(states[n], ops[n], outs[n], states[n + 1]);
      StepConserves(states[n], ops[n], outs[n], states[n + 1]);
      var before, after := multiset(states[n][c]), multiset(states[n + 1][c]);
      var came, went := Issued(ops[..n], outs[..n], c), Returned(ops[..n], c);
      assert before + came == multiset(states[0][c]) + went;
      if ops[n].cls == c {
        Balance(after, multiset(outs[n]), before, multiset(Retired(ops[n])), came, multiset(states[0][c]), went);
      } else {
        assert came + multiset{} == came && went + multiset{} == went;
      }
    }
  }

  /** A run that ends with class `c` empty has issued exactly what was there and what was handed back, once each. */
  lemma DrainedRunIssuesAll(states: seq<Classes>, ops: seq<Op>, outs: seq<seq<nat>>, c: nat)
    requires Run(states, ops, outs) && c < |states[0]| && |states[|ops|]| == |states[0]| && states[|ops|][c] == {}
    requires CleanRun(states, ops)
    ensures Issued(ops, outs, c) == multiset(states[0][c]) + Returned(ops, c)
  {
    Conservation(states, ops, outs, c);
    assert multiset{} + Issued(ops, outs, c) == Issued(ops, outs, c);
  }

  /** Every pop or drain of the script asks for at least what its class holds. */
  ghost predicate FullDrains(states: seq<Classes>, ops: seq<Op>) {
    && |states| == |ops| + 1
    && forall i | 0 <= i < |ops| && ops[i].cls < |states[i]| && Asked(ops[i]) > 0 ::
         |states[i][ops[i].cls]| <= Asked(ops[i])
  }

  /** A drain that asks for enough takes everything, so its outcome is determined. */
  lemma FullDrainTakesAll(a: Classes, op: Op, out: seq<nat>, b: Classes)
    requires Step(a, op, out, b) && Asked(op) >= |a[op.cls]|
    ensures Elements(out) == a[op.cls] && multiset(out) == multiset(a[op.cls])
  {
    SizeOfDistinct(out);
    SubsetOfSameSize(Elements(out), a[op.cls]);
    MultisetOfDistinct(out);
  }

  /**
    * Two runs of matching scripts whose drains are all full pass through the same free sets and issue the
    * same slots round by round, in whatever order. Matching scripts may hand the slots back in different
    * orders: each run may flush what it was itself given.
    */
  lemma {:induction false} FullDrainRunsAgree(
      s: seq<Classes>, ops: seq<Op>, outs: seq<seq<nat>>, s': seq<Classes>, ops': seq<Op>, outs': seq<seq<nat>>)
    requires Run(s, ops, outs) && Run(s', ops', outs') && AllMatch(ops, ops') && s[0] == s'[0] && FullDrains(s, ops)
    ensures s == s' && forall i | 0 <= i < |ops| :: multiset(outs[i]) == multiset(outs'[i])
    decreases |ops|
  {
    hide Step, Matches, Asked, Retired;
    if ops != [] {
      var n := |ops| - 1;
      RunLast(s, ops, outs, n);
      RunLast(s', ops', outs', n);
      assert Matches(ops[n], ops'[n]);
      FullDrainRunsAgree(s[..n + 1], ops[..n], outs[..n], s'[..n + 1], ops'[..n], outs'[..n]);
      hide Run;
      assert s[..n + 1][n] == s[n] && s'[..n + 1][n] == s'[n];
      SameStep(s[n], ops[n], outs[n], s[n + 1], ops'[n], outs'[n], s'[n + 1]);
      assert s == s[..n + 1] + [s[n + 1]] && s' == s'[..n + 1] + [s'[n + 1]];
      forall i | 0 <= i < |ops|
        ensures multiset(outs[i]) == multiset(outs'[i])
      {
        if i < n {
          assert multiset(outs[..n][i]) == multiset(outs'[..n][i]);
        }
      }
    }
  }

  /** Matching steps from one state that take all there is lead to one state. */
  lemma SameStep(a: Classes, op: Op, out: seq<nat>, b: Classes, op': Op, out': seq<nat>, b': Classes)
    requires Step(a, op, out, b) && Step(a, op', out', b') && Matches(op, op')
    requires op.cls < |a| && Asked(op) > 0 ==> |a[op.cls]| <= Asked(op)
    ensures b == b' && multiset(out) == multiset(out')
  {
    if Asked(op) > 0 {
      FullDrainTakesAll(a, op, out, b);
      FullDrainTakesAll(a, op', out', b');
    }
    hide Distinct, Retired, Asked;
    assert forall d | 0 <= d < |a| :: b[d] == b'[d];
  }

  /** Without double retires, matching scripts hand back the same slots as often. */
  lemma {:induction false} SameReturned(
      s: seq<Classes>, ops: seq<Op>, s': seq<Classes>, ops': seq<Op>, c: nat)
    requires CleanRun(s, ops) && CleanRun(s', ops') && AllMatch(ops, ops')
    ensures Returned(ops, c) == Returned(ops', c)
    decreases |ops|
  {
    if ops != [] {
      var n := |ops| - 1;
      hide Elements, Asked, Retired;
      SameReturned(s, ops[..n], s', ops'[..n], c);
      assert Matches(ops[n], ops'[n]) && NoDoubleRetire(s[n], ops[n]) && NoDoubleRetire(s'[n], ops'[n]);
      MultisetOfDistinct(Retired(ops[n]));
      MultisetOfDistinct(Retired(ops'[n]));
    }
  }

  // ---- Rounds that put back what they took ----

  /** A round drains a batch of any size and flushes back what that drain issued. */
  predicate FlushesBack(ops: seq<Op>, outs: seq<seq<nat>>)
    decreases |ops|
  {
    |outs| == |ops|
    && (ops == []
        || (|ops| >= 2 && ops[0].Drain? && ops[1] == Flush(ops[0].cls, outs[0]) && FlushesBack(ops[2..], outs[2..])))
  }

  /** The class and the batch of each round. */
  function Rounds(ops: seq<Op>): seq<(nat, nat)>
    decreases |ops|
  {
    if |ops| < 2 then [] else [(ops[0].cls, Asked(ops[0]))] + Rounds(ops[2..])
  }

  /** Draining and flushing back what came out restores the free sets. */
  lemma FlushBackRestores(a: Classes, c: nat, n: nat, out: seq<nat>, m: Classes, none: seq<nat>, b: Classes)
    requires Step(a, Drain(c, n), out, m) && Step(m, Flush(c, out), none, b)
    ensures b == a && none == []
  {
    assert b[c] == m[c] - {} + Elements(out);
    assert forall d | 0 <= d < |a| :: b[d] == a[d];
  }

  /** Any number of such rounds, of any batch sizes: every round starts from, and ends with, the same free sets. */
  lemma {:induction false} RoundsRestore(states: seq<Classes>, ops: seq<Op>, outs: seq<seq<nat>>)
    requires Run(states, ops, outs) && FlushesBack(ops, outs)
    ensures |ops| % 2 == 0 && forall i | 0 <= i < |states| && i % 2 == 0 :: states[i] == states[0]
    decreases |ops|
  {
    hide Step;
    if ops != [] {
      assert Step(states[0], ops[0], outs[0], states[1]) && Step(states[1], ops[1], outs[1], states[2]);
      FlushBackRestores(states[0], ops[0].cls, ops[0].n, outs[0], states[1], outs[1], states[2]);
      RunTail(states, ops, outs);
      RoundsRestore(states[2..], ops[2..], outs[2..]);
      forall i | 0 <= i < |states| && i % 2 == 0
        ensures states[i] == states[0]
      {
        if i >= 2 {
          assert states[2..][i - 2] == states[i];
        }
      }
    }
  }

  /** So each round issues from the free sets that the first began with, and all of a class when it asks for enough. */
  lemma RoundIssues(states: seq<Classes>, ops: seq<Op>, outs: seq<seq<nat>>, i: nat)
    requires Run(states, ops, outs) && FlushesBack(ops, outs) && i < |ops| && i % 2 == 0
    ensures ops[i].Drain? && ops[i].cls < |states[0]|
    ensures var all := states[0][ops[i].cls];
      && Distinct(outs[i]) && Elements(outs[i]) <= all && |outs[i]| == (if ops[i].n < |all| then ops[i].n else |all|)
      && (ops[i].n >= |all| ==> multiset(outs[i]) == multiset(all))
  {
    RoundsRestore(states, ops, outs);
    DrainsFirst(ops, outs, i);
    assert states[i] == states[0] && Step(states[i], ops[i], outs[i], states[i + 1]);
    if ops[i].n >= |states[0][ops[i].cls]| {
      FullDrainTakesAll(states[i], ops[i], outs[i], states[i + 1]);
    }
  }

  lemma {:induction false} DrainsFirst(ops: seq<Op>, outs: seq<seq<nat>>, i: nat)
    requires FlushesBack(ops, outs) && i < |ops| && i % 2 == 0
    ensures ops[i].Drain?
    decreases i
  {
    if i > 0 {
      DrainsFirst(ops[2..], outs[2..], i - 2);
    }
  }

  lemma RunTail(states: seq<Classes>, ops: seq<Op>, outs: seq<seq<nat>>)
    requires Run(states, ops, outs) && |ops| >= 2
    ensures Run(states[2..], ops[2..], outs[2..])
  {
    hide Step;
    var s, o, r := states[2..], ops[2..], outs[2..];
    forall i | 0 <= i < |o|
      ensures Step(s[i], o[i], r[i], s[i + 1])
    {
      assert Step(states[i + 2], ops[i + 2], outs[i + 2], states[i + 2 + 1]);
      assert s[i] == states[i + 2] && s[i + 1] == states[i + 3] && o[i] == ops[i + 2] && r[i] == outs[i + 2];
    }
  }

  /** Every slot of `all` is either live or free in exactly one class, and nothing else is either. */
  ghost predicate Partition(a: Classes, live: set<nat>, all: set<nat>) {
    && (forall x :: x in all <==> x in live || exists d :: 0 <= d < |a| && x in a[d])
    && (forall d | 0 <= d < |a| :: a[d] !! live)
    && (forall d, e | 0 <= d < e < |a| :: a[d] !! a[e])
  }

  /** The slots in the callers' hands after a script, given those before it. */
  ghost function Live(ops: seq<Op>, outs: seq<seq<nat>>, live: set<nat>): set<nat>
    requires |outs| == |ops|
  {
    if ops == [] then live
    else
      var n := |ops| - 1;
      Live(ops[..n], outs[..n], live) - Elements(Retired(ops[n])) + Elements(outs[n])
  }

  lemma StepKeepsPartition(a: Classes, op: Op, out: seq<nat>, b: Classes, live: set<nat>, all: set<nat>)
    requires Step(a, op, out, b) && Partition(a, live, all) && Elements(Retired(op)) <= live
    ensures Partition(b, live - Elements(Retired(op)) + Elements(out), all)
  {
    var live' := live - Elements(Retired(op)) + Elements(out);
    assert Retired(op) == [] || out == [];
    forall x
      ensures x in all <==> x in live' || exists d :: 0 <= d < |b| && x in b[d]
    {
      if x in b[op.cls] {
      } else if d :| 0 <= d < |a| && x in a[d] {
        assert x in all && (d == op.cls || x in b[d]);
      } else if d :| 0 <= d < |b| && x in b[d] {
        assert x in a[d];
      }
    }
  }

  /** Every operation hands back only slots that are in the callers' hands by then. */
  ghost predicate HandsBackLive(ops: seq<Op>, outs: seq<seq<nat>>, live: set<nat>)
    requires |outs| == |ops|
  {
    forall i | 0 <= i < |ops| :: Elements(Retired(ops[i])) <= Live(ops[..i], outs[..i], live)
  }

  lemma HandsBackPrefix(ops: seq<Op>, outs: seq<seq<nat>>, live: set<nat>, n: nat)
    requires |outs| == |ops| && n <= |ops| && HandsBackLive(ops, outs, live)
    ensures HandsBackLive(ops[..n], outs[..n], live)
  {
    hide Live, Elements, Retired;
    forall i | 0 <= i < n
      ensures Elements(Retired(ops[..n][i])) <= Live(ops[..n][..i], outs[..n][..i], live)
    {
      assert ops[..n][..i] == ops[..i] && outs[..n][..i] == outs[..i];
    }
  }

  /** The last step of a run, and the run before it. */
  lemma RunLast(states: seq<Classes>, ops: seq<Op>, outs: seq<seq<nat>>, n: nat)
    requires Run(states, ops, outs) && |ops| == n + 1
    ensures Run(states[..n + 1], ops[..n], outs[..n]) && Step(states[n], ops[n], outs[n], states[n + 1])
  {
    hide Step;
  }

  lemma LiveLast(ops: seq<Op>, outs: seq<seq<nat>>, live: set<nat>, n: nat)
    requires |outs| == |ops| == n + 1
    ensures Live(ops, outs, live) == Live(ops[..n], outs[..n], live) - Elements(Retired(ops[n])) + Elements(outs[n])
  {
  }

  /**
    * Over any run whose retires only hand back live slots, every slot stays in exactly one place:
    * live, or free in exactly one class.
    */
  lemma {:induction false} RunKeepsPartition(
      states: seq<Classes>, ops: seq<Op>, outs: seq<seq<nat>>, live: set<nat>, all: set<nat>)
    requires Run(states, ops, outs) && Partition(states[0], live, all) && HandsBackLive(ops, outs, live)
    ensures Partition(states[|ops|], Live(ops, outs, live), all)
    decreases |ops|
  {
    if ops != [] {
      var n := |ops| - 1;
      HandsBackPrefix(ops, outs, live, n);
      RunLast(states, ops, outs, n);
      LiveLast(ops, outs, live, n);
      assert Elements(Retired(ops[n])) <= Live(ops[..n], outs[..n], live);
      hide Partition, Step, HandsBackLive, Elements, Retired, Run, Live;
      RunKeepsPartition(states[..n + 1], ops[..n], outs[..n], live, all);
      StepKeepsPartition(states[n], ops[n], outs[n], states[n + 1], Live(ops[..n], outs[..n], live), all);
    }
  }
}
