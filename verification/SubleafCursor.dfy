/** What the lazy cursor of candidate B3 costs, in all and word by word. */
module SubleafCursor {
  import opened Words
  import opened Bitmaps
  import opened FreeSets
  import opened Scripts
  import opened SubleafTable
  import opened SubleafLaws
  import opened SubleafRuns

  /** How many of the retires link a sub-leaf that was empty. */
  function Links(t: Table, c: nat, offs: seq<nat>): nat
    requires Shape(t) && c < 49 && InSegment(offs)
    decreases |offs|
  {
    if offs == [] then 0
    else
      (if t.hdr[offs[0] / 256].wordsMask == 0 then 1 else 0)
      + Links(SubleafTable.Retire(t, c, offs[0]), c, offs[1..])
  }

  /** A flush lowers the class's cursor by at most 16 for each sub-leaf that it links anew. */
  lemma {:induction false} FlushLowers(t: Table, c: nat, offs: seq<nat>)
    requires Inv(t) && c < 49 && AllFit(t, c, offs)
    ensures InSegment(offs)
    ensures var t' := RetireMany(t, c, offs);
      t'.cursor[c] <= t.cursor[c] <= t'.cursor[c] + 16 * Links(t, c, offs)
    decreases |offs|
  {
    if offs != [] {
      RetireEffect(t, c, offs[0]);
      RetireKeepsFits(t, c, offs[0], offs[1..]);
      hide SubleafTable.Retire, MasksExact, LinksExact;
      FlushLowers(SubleafTable.Retire(t, c, offs[0]), c, offs[1..]);
    }
  }

  /** The mask words of class `c` that an operation skips: how far it moves the cursor up. */
  function Skipped(t: Table, op: Op, c: nat): int
    requires Inv(t) && Legal(t, op) && c < 49
  {
    if op.Pop? || op.Drain? then NextRefines(t, op); Next(t, op).0.cursor[c] as int - t.cursor[c] as int else 0
  }

  /** How far an operation lowers the cursor of class `c`. */
  function Lowered(t: Table, op: Op, c: nat): int
    requires Inv(t) && Legal(t, op) && c < 49
  {
    if op.Pop? || op.Drain? then 0 else NextRefines(t, op); t.cursor[c] as int - Next(t, op).0.cursor[c] as int
  }

  /** The sub-leaves of class `c` that an operation links anew. */
  ghost function NewLinks(t: Table, op: Op, c: nat): nat
    requires Inv(t) && Legal(t, op) && c < 49
  {
    if op.cls != c || op.Prime? then 0
    else if op.Merge? then (if t.hdr[op.base / 4].wordsMask == 0 then 1 else 0)
    else
      RetireManyEffect(t, c, Retired(op));
      Links(t, c, Retired(op))
  }

  lemma OperationCost(t: Table, op: Op, c: nat)
    requires Inv(t) && Legal(t, op) && c < 49
    ensures Skipped(t, op, c) >= 0 && 0 <= Lowered(t, op, c) <= 16 * NewLinks(t, op, c)
  {
    hide MasksExact, LinksExact, CursorsLow, SubleafTable.Pop, SubleafTable.Retire, PopMany, Links, Free;
    NextRefines(t, op);
    if op.cls == c {
      CursorBelow(t, c);
      if op.Pop? {
        PopEffect(t, c);
      } else if op.Drain? {
        PopManyEffect(t, c, op.n);
        SmallestAreSmallest(Free(t, c), op.n);
      } else if op.Prime? {
        PrimeEffect(t, c, op.unit);
      } else if op.Merge? {
        MergeEffect(t, op.base / 4, op.src);
      } else {
        FlushLowers(t, c, Retired(op));
        RetireOne(t, op);
      }
    }
  }

  /** No free slot lies below the cursor. */
  lemma CursorBelow(t: Table, c: nat)
    requires Inv(t) && c < 49
    ensures t.cursor[c] <= 16 && forall s | s in Free(t, c) :: t.cursor[c] <= s / 16384
  {
    forall s | s in Free(t, c)
      ensures t.cursor[c] <= s / 16384
    {
      EmptySubleaf(t, s / 256);
      assert Linked(t, c, s / 256);
      SlotArithmetic(s);
      ZeroOrBit(0);
    }
  }

  lemma RetireOne(t: Table, op: Op)
    requires Inv(t) && Legal(t, op) && (op.Retire? || op.Flush?)
    ensures InSegment(Retired(op)) && Next(t, op).0.cursor == RetireMany(t, op.cls, Retired(op)).cursor
  {
    RetireManyEffect(t, op.cls, Retired(op));
    if op.Retire? {
      var t' := SubleafTable.Retire(t, op.cls, op.off);
      assert RetireMany(t', op.cls, []) == t';
      assert [op.off][1..] == [];
    }
  }

  function TotalSkipped(t: Table, ops: seq<Op>, c: nat): int
    requires Inv(t) && LegalRun(t, ops) && c < 49
    decreases |ops|
  {
    if ops == [] then 0
    else NextRefines(t, ops[0]); Skipped(t, ops[0], c) + TotalSkipped(Next(t, ops[0]).0, ops[1..], c)
  }

  function TotalLowered(t: Table, ops: seq<Op>, c: nat): int
    requires Inv(t) && LegalRun(t, ops) && c < 49
    decreases |ops|
  {
    if ops == [] then 0
    else NextRefines(t, ops[0]); Lowered(t, ops[0], c) + TotalLowered(Next(t, ops[0]).0, ops[1..], c)
  }

  ghost function TotalNewLinks(t: Table, ops: seq<Op>, c: nat): nat
    requires Inv(t) && LegalRun(t, ops) && c < 49
    decreases |ops|
  {
    if ops == [] then 0
    else NextRefines(t, ops[0]); NewLinks(t, ops[0], c) + TotalNewLinks(Next(t, ops[0]).0, ops[1..], c)
  }

  /** The cursor is the potential: what it ends at plus what was lowered is where it began plus what was skipped. */
  lemma {:induction false} CursorBalance(t: Table, ops: seq<Op>, c: nat)
    requires Inv(t) && LegalRun(t, ops) && c < 49
    ensures Tables(t, ops)[|ops|].cursor[c] + TotalLowered(t, ops, c) == t.cursor[c] + TotalSkipped(t, ops, c)
    ensures TotalLowered(t, ops, c) <= 16 * TotalNewLinks(t, ops, c)
    decreases |ops|
  {
    hide Next, Legal, Skipped, Lowered, NewLinks, MasksExact, LinksExact, CursorsLow;
    if ops != [] {
      NextRefines(t, ops[0]);
      OperationCost(t, ops[0], c);
      CursorMoves(t, ops[0], c);
      CursorBalance(Next(t, ops[0]).0, ops[1..], c);
      RunUnfolds(t, ops);
    }
  }

  lemma CursorMoves(t: Table, op: Op, c: nat)
    requires Inv(t) && Legal(t, op) && c < 49
    ensures Inv(Next(t, op).0)
    ensures Next(t, op).0.cursor[c] == t.cursor[c] + Skipped(t, op, c) - Lowered(t, op, c)
  {
    NextRefines(t, op);
  }

  /**
    * The lazy cursor is amortised: from a fresh table, over every legal script, the mask words that
    * `first_subleaf` skips for a class never exceed the total lowering of its cursor by new links,
    * hence 16 for each new link.
    */
  lemma CursorCost(ops: seq<Op>, c: nat)
    requires Inv(Empty()) && LegalRun(Empty(), ops) && c < 49
    ensures TotalSkipped(Empty(), ops, c) <= TotalLowered(Empty(), ops, c) <= 16 * TotalNewLinks(Empty(), ops, c)
  {
    CursorBalance(Empty(), ops, c);
    assert Inv(Tables(Empty(), ops)[|ops|]);
  }

  // ---- Word by word ----

  /** The free slots of class `c` whose sub-leaves stand in mask words up to `w`. */
  function UpToWord(t: Table, c: nat, w: nat): set<nat>
    requires Shape(t)
  {
    set s | s in Free(t, c) && s / 16384 <= w
  }

  /**
    * The search passes mask word `w`: it starts at or below it, and asks for more slots than stand in the
    * words up to it.
    */
  function SkipsWord(t: Table, op: Op, c: nat, w: nat): nat
    requires Inv(t) && Legal(t, op) && c < 49
  {
    if op.cls == c && t.cursor[c] <= w < 16 && Asked(op) > |UpToWord(t, c, w)| then 1 else 0
  }

  /** The lowest mask word that the operation links something in, if it does not exceed `w`. */
  ghost predicate LinksUpTo(op: Op, w: nat) {
    match op
    case Merge(_, base, _) => base / 256 <= w
    case _ => exists x :: x in Retired(op) && x / 16384 <= w
  }

  /** The link takes the cursor back past mask word `w`: the cursor is above it, and the link is not. */
  ghost function DropsPast(t: Table, op: Op, c: nat, w: nat): nat
    requires Inv(t) && Legal(t, op) && c < 49
  {
    if op.cls == c && w < t.cursor[c] && LinksUpTo(op, w) then 1 else 0
  }

  /** Both guards say, before the operation, what it will do to the cursor. */
  lemma CursorCrosses(t: Table, op: Op, c: nat, w: nat)
    requires Inv(t) && Legal(t, op) && c < 49
    ensures Inv(Next(t, op).0)
    ensures SkipsWord(t, op, c, w) == 1 <==> t.cursor[c] <= w < Next(t, op).0.cursor[c]
    ensures DropsPast(t, op, c, w) == 1 <==> Next(t, op).0.cursor[c] <= w < t.cursor[c]
  {
    hide MasksExact, LinksExact, CursorsLow, SubleafTable.Pop, SubleafTable.Retire, PopMany, Free, LinksUpTo, UpToWord;
    NextRefines(t, op);
    CursorBelow(t, c);
    if op.cls == c {
      match op
      case Pop(_) => PopCrosses(t, op, w);
      case Drain(_, _) => DrainCrosses(t, op, w);
      case Prime(_, _) => PrimeCrosses(t, op, w);
      case Merge(_, _, _) => MergeCrosses(t, op, w);
      case _ => RetireCrosses(t, op, w);
    }
  }

  lemma PopCrosses(t: Table, op: Op, w: nat)
    requires Inv(t) && Legal(t, op) && op.Pop?
    ensures Inv(Next(t, op).0)
    ensures SkipsWord(t, op, op.cls, w) == 1 <==> t.cursor[op.cls] <= w < Next(t, op).0.cursor[op.cls]
    ensures DropsPast(t, op, op.cls, w) == 0 && t.cursor[op.cls] <= Next(t, op).0.cursor[op.cls]
  {
    hide MasksExact, LinksExact, CursorsLow, SubleafTable.Pop, Free;
    var c := op.cls;
    PopEffect(t, c);
    CursorBelow(t, c);
    LowestUpTo(Free(t, c), w);
    assert UpToWord(t, c, w) == set x | x in Free(t, c) && x / 16384 <= w;
    CursorBelow(Next(t, op).0, c);
  }

  /** Nothing lies up to a mask word exactly when the smallest slot does not. */
  lemma LowestUpTo(s: set<nat>, w: nat)
    ensures var low := set x | x in s && x / 16384 <= w;
      if s == {} then |low| == 0 else (|low| == 0 <==> w < Min(s) / 16384)
  {
    var low := set x | x in s && x / 16384 <= w;
    assert |low| == 0 <==> low == {};
    if s != {} {
      assert Min(s) / 16384 <= w ==> Min(s) in low;
    }
  }

  lemma DrainCrosses(t: Table, op: Op, w: nat)
    requires Inv(t) && Legal(t, op) && op.Drain?
    ensures Inv(Next(t, op).0)
    ensures SkipsWord(t, op, op.cls, w) == 1 <==> t.cursor[op.cls] <= w < Next(t, op).0.cursor[op.cls]
    ensures DropsPast(t, op, op.cls, w) == 0 && t.cursor[op.cls] <= Next(t, op).0.cursor[op.cls]
  {
    hide MasksExact, LinksExact, CursorsLow, PopMany, Free, Smallest, Bindings;
    var c := op.cls;
    PopManyEffect(t, c, op.n);
    CursorBelow(t, c);
    SmallestAreSmallest(Free(t, c), op.n);
    assert UpToWord(t, c, w) == set x | x in Free(t, c) && x / 16384 <= w;
    CursorBelow(Next(t, op).0, c);
    if 0 < op.n <= |Free(t, c)| {
      SmallestUpTo(Free(t, c), op.n, w);
    }
    SizeOfSubset(UpToWord(t, c, w), Free(t, c));
  }

  /** The `n`-th smallest lies beyond a bound exactly when fewer than `n` lie within it. */
  lemma SmallestUpTo(s: set<nat>, n: nat, w: nat)
    requires 0 < n <= |s|
    ensures var r := Smallest(s, n);
      |r| == n && (r[n - 1] / 16384 > w <==> |set x | x in s && x / 16384 <= w| < n)
  {
    var r, low := Smallest(s, n), set x | x in s && x / 16384 <= w;
    SmallestAreSmallest(s, n);
    hide Smallest, Elements;
    if r[n - 1] / 16384 > w {
      LowAreFirst(r, s, n, w);
      SizeOfDistinct(r[..n - 1]);
      SizeOfSubset(low, Elements(r[..n - 1]));
    } else {
      FirstAreLow(r, s, n, w);
      SizeOfDistinct(r);
      SizeOfSubset(Elements(r), low);
    }
  }

  lemma LowAreFirst(r: seq<nat>, s: set<nat>, n: nat, w: nat)
    requires 0 < n <= |s| && AreSmallest(r, s, n) && r[n - 1] / 16384 > w
    ensures (set x | x in s && x / 16384 <= w) <= Elements(r[..n - 1])
  {
    forall x | x in s && x / 16384 <= w
      ensures x in r[..n - 1]
    {
      assert x in r;
    }
  }

  lemma FirstAreLow(r: seq<nat>, s: set<nat>, n: nat, w: nat)
    requires 0 < n <= |s| && AreSmallest(r, s, n) && r[n - 1] / 16384 <= w
    ensures Elements(r) <= set x | x in s && x / 16384 <= w
  {
    assert forall i | 0 <= i < n :: r[i] <= r[n - 1];
  }

  lemma PrimeCrosses(t: Table, op: Op, w: nat)
    requires Inv(t) && Legal(t, op) && op.Prime?
    ensures Inv(Next(t, op).0)
    ensures SkipsWord(t, op, op.cls, w) == 0 && DropsPast(t, op, op.cls, w) == 0
    ensures Next(t, op).0.cursor[op.cls] == t.cursor[op.cls]
  {
    PrimeRefines(t, op);
  }

  lemma MergeCrosses(t: Table, op: Op, w: nat)
    requires Inv(t) && Legal(t, op) && op.Merge?
    ensures Inv(Next(t, op).0)
    ensures SkipsWord(t, op, op.cls, w) == 0 && Next(t, op).0.cursor[op.cls] <= t.cursor[op.cls]
    ensures DropsPast(t, op, op.cls, w) == 1 <==> Next(t, op).0.cursor[op.cls] <= w < t.cursor[op.cls]
  {
    MergeEffect(t, op.base / 4, op.src);
    assert op.base / 4 / 64 == op.base / 256;
    if op.base / 256 < t.cursor[op.cls] {
      BelowCursorIsEmpty(t, op.cls, op.base / 4);
    }
    hide MasksExact, LinksExact, CursorsLow, Free, OrMergeRegion;
  }

  /** Below the cursor a sub-leaf of the class is empty. */
  lemma BelowCursorIsEmpty(t: Table, c: nat, sl: nat)
    requires Inv(t) && c < 49 && sl < 1024 && Fits(t, c, sl) && sl / 64 < t.cursor[c]
    ensures t.hdr[sl].wordsMask == 0
  {
    ZeroHasNoBits(sl % 64);
    assert MaskWord(t.classMask, c, sl / 64) == 0;
    assert !Linked(t, c, sl);
  }

  lemma RetireCrosses(t: Table, op: Op, w: nat)
    requires Inv(t) && Legal(t, op) && (op.Retire? || op.Flush?)
    ensures Inv(Next(t, op).0)
    ensures SkipsWord(t, op, op.cls, w) == 0 && Next(t, op).0.cursor[op.cls] <= t.cursor[op.cls]
    ensures DropsPast(t, op, op.cls, w) == 1 <==> Next(t, op).0.cursor[op.cls] <= w < t.cursor[op.cls]
  {
    hide MasksExact, LinksExact, CursorsLow, SubleafTable.Retire;
    FlushLowers(t, op.cls, Retired(op));
    RetireOne(t, op);
    RetireManyReaches(t, op.cls, Retired(op), w);
    NextRefines(t, op);
    LinksReach(op, w);
    hide Next;
  }

  lemma LinksReach(op: Op, w: nat)
    requires op.Retire? || op.Flush?
    ensures LinksUpTo(op, w) <==> ReachesDown(Retired(op), w)
  {
    var offs := Retired(op);
    if x :| x in offs && x / 16384 <= w {
      var i :| 0 <= i < |offs| && offs[i] == x;
    }
    if i :| 0 <= i < |offs| && offs[i] / 16384 <= w {
      assert offs[i] in offs;
    }
  }

  /** Some offset of the list lies in a mask word up to `w`. */
  predicate ReachesDown(offs: seq<nat>, w: nat) {
    exists i :: 0 <= i < |offs| && offs[i] / 16384 <= w
  }

  lemma {:induction false} RetireManyReaches(t: Table, c: nat, offs: seq<nat>, w: nat)
    requires Inv(t) && c < 49 && AllFit(t, c, offs)
    ensures InSegment(offs)
    ensures RetireMany(t, c, offs).cursor[c] <= w <==> t.cursor[c] <= w || ReachesDown(offs, w)
    decreases |offs|
  {
    if offs != [] {
      var t1 := SubleafTable.Retire(t, c, offs[0]);
      RetireEffect(t, c, offs[0]);
      RetireKeepsFits(t, c, offs[0], offs[1..]);
      if offs[0] / 16384 < t.cursor[c] {
        SlotArithmetic(offs[0]);
        BelowCursorIsEmpty(t, c, offs[0] / 256);
      }
      hide SubleafTable.Retire, Inv, Fits;
      RetireManyReaches(t1, c, offs[1..], w);
      ReachesCons(offs, w);
    }
  }

  lemma ReachesCons(offs: seq<nat>, w: nat)
    requires offs != []
    ensures ReachesDown(offs, w) <==> offs[0] / 16384 <= w || ReachesDown(offs[1..], w)
  {
    if i :| 0 <= i < |offs| && offs[i] / 16384 <= w {
      assert i > 0 ==> offs[1..][i - 1] == offs[i];
    }
    if i :| 0 <= i < |offs[1..]| && offs[1..][i] / 16384 <= w {
      assert offs[i + 1] == offs[1..][i];
    }
  }

  function WordSkips(t: Table, ops: seq<Op>, c: nat, w: nat): nat
    requires Inv(t) && LegalRun(t, ops) && c < 49
    decreases |ops|
  {
    if ops == [] then 0
    else NextRefines(t, ops[0]); SkipsWord(t, ops[0], c, w) + WordSkips(Next(t, ops[0]).0, ops[1..], c, w)
  }

  ghost function WordDrops(t: Table, ops: seq<Op>, c: nat, w: nat): nat
    requires Inv(t) && LegalRun(t, ops) && c < 49
    decreases |ops|
  {
    if ops == [] then 0
    else NextRefines(t, ops[0]); DropsPast(t, ops[0], c, w) + WordDrops(Next(t, ops[0]).0, ops[1..], c, w)
  }

  lemma CrossBounds(t: Table, op: Op, c: nat, w: nat)
    requires Inv(t) && Legal(t, op) && c < 49
    ensures SkipsWord(t, op, c, w) <= 1 && DropsPast(t, op, c, w) <= 1
  {
  }

  /** Over any run each mask word is skipped as often as the cursor falls back past it, up to where it began and ends. */
  lemma {:induction false} WordBalance(t: Table, ops: seq<Op>, c: nat, w: nat)
    requires Inv(t) && LegalRun(t, ops) && c < 49
    ensures (if Tables(t, ops)[|ops|].cursor[c] > w then 1 else 0) + WordDrops(t, ops, c, w)
         == (if t.cursor[c] > w then 1 else 0) + WordSkips(t, ops, c, w)
    decreases |ops|
  {
    if ops != [] {
      hide Next, Legal, Inv, Step, Smallest, Sets, Free, SkipsWord, DropsPast;
      RunUnfolds(t, ops);
      CrossBounds(t, ops[0], c, w);
      CursorCrosses(t, ops[0], c, w);
      WordBalance(Next(t, ops[0]).0, ops[1..], c, w);
    }
  }

  /**
    * "Each word is skipped once for good" holds of a word exactly when links come in at or below it, with the
    * cursor above it, at most twice, or once if the cursor ends above it.
    */
  lemma SkippedOnceIff(ops: seq<Op>, c: nat, w: nat)
    requires Inv(Empty()) && LegalRun(Empty(), ops) && c < 49 && w < 16
    ensures WordSkips(Empty(), ops, c, w) <= 1
       <==> WordDrops(Empty(), ops, c, w) + (if Tables(Empty(), ops)[|ops|].cursor[c] > w then 1 else 0) <= 2
  {
    WordBalance(Empty(), ops, c, w);
  }

  /** Retire one slot, pop it, and pop once more. */
  function Cycles(c: nat, off: nat, k: nat): seq<Op> {
    if k == 0 then [] else [Retire(c, off), Pop(c), Pop(c)] + Cycles(c, off, k - 1)
  }

  /** Class `c` has nothing free, its cursor says so, and the slot's sub-leaf is empty. */
  predicate Idle(t: Table, c: nat, off: nat)
    requires Inv(t) && c < 49 && off < 262144
  {
    Free(t, c) == {} && t.cursor[c] == 16 && t.hdr[off / 256].wordsMask == 0
  }

  lemma CycleReturns(t: Table, c: nat, off: nat)
    requires Inv(t) && c < 49 && off < 262144 && Idle(t, c, off)
    ensures Legal(t, Retire(c, off))
    ensures var t1 := Next(t, Retire(c, off)).0;
      && Inv(t1) && Legal(t1, Pop(c)) && t1.cursor[c] == off / 16384
      && var t2 := Next(t1, Pop(c)).0;
      && Inv(t2) && Legal(t2, Pop(c)) && t2.cursor[c] == off / 16384
      && var t3 := Next(t2, Pop(c)).0;
      && Inv(t3) && Idle(t3, c, off)
  {
    assert |Bindings(t)| == 1024;
    hide MasksExact, LinksExact, CursorsLow, SubleafTable.Pop, SubleafTable.Retire, Bindings, Next, Legal;
    RetireSteps(t, c, off);
    RetireEffect(t, c, off);
    var t1 := SubleafTable.Retire(t, c, off);
    assert Free(t1, c) == {off};
    hide Free;
    PopSteps(t1, c);
    PopEffect(t1, c);
    var t2 := SubleafTable.Pop(t1, c).0;
    PopSteps(t2, c);
    PopEffect(t2, c);
    EmptiedSubleaf(SubleafTable.Pop(t2, c).0, c, off);
  }

  lemma RetireSteps(t: Table, c: nat, off: nat)
    requires Inv(t) && c < 49 && off < 262144 && Fits(t, c, off / 256)
    ensures Legal(t, Retire(c, off)) && Next(t, Retire(c, off)).0 == SubleafTable.Retire(t, c, off)
  {
    hide MasksExact, LinksExact, CursorsLow, SubleafTable.Retire;
  }

  lemma PopSteps(t: Table, c: nat)
    requires Inv(t) && c < 49
    ensures Legal(t, Pop(c)) && Next(t, Pop(c)).0 == SubleafTable.Pop(t, c).0
  {
    hide MasksExact, LinksExact, CursorsLow, SubleafTable.Pop;
  }

  lemma EmptiedSubleaf(t: Table, c: nat, off: nat)
    requires Inv(t) && c < 49 && off < 262144 && Free(t, c) == {} && Bindings(t)[off / 256] == c
    ensures t.hdr[off / 256].wordsMask == 0
  {
    EmptySubleaf(t, off / 256);
    forall s: nat | 256 * (off / 256) <= s < 256 * (off / 256) + 256
      ensures !Has(t.occ, s)
    {
      assert t.hdr[s / 256].bound == Bindings(t)[off / 256];
      assert s !in Free(t, c);
    }
  }

  lemma SkipsOfCons(t: Table, op: Op, rest: seq<Op>, c: nat, w: nat)
    requires Inv(t) && Legal(t, op) && c < 49
    requires Inv(Next(t, op).0) && LegalRun(Next(t, op).0, rest)
    ensures LegalRun(t, [op] + rest)
    ensures WordSkips(t, [op] + rest, c, w) == SkipsWord(t, op, c, w) + WordSkips(Next(t, op).0, rest, c, w)
  {
    hide Next, Legal, Inv, Step, Smallest, Sets, Free, SkipsWord;
    assert ([op] + rest)[1..] == rest;
  }

  /** In one cycle only the second `pop` skips, and it skips every word from the slot's on. */
  lemma CycleSkips(t: Table, c: nat, off: nat, rest: seq<Op>, k: nat, w: nat)
    requires Inv(t) && c < 49 && off < 262144 && Idle(t, c, off) && off / 16384 <= w < 16
    requires forall u: Table | Inv(u) && Idle(u, c, off) :: LegalRun(u, rest) && WordSkips(u, rest, c, w) == k
    ensures LegalRun(t, [Retire(c, off), Pop(c), Pop(c)] + rest)
    ensures WordSkips(t, [Retire(c, off), Pop(c), Pop(c)] + rest, c, w) == k + 1
  {
    CycleReturns(t, c, off);
    IdleCursor(t, c, off);
    hide Next, Legal, Inv, Step, Smallest, Sets, Free, LegalRun, WordSkips;
    var t1 := Next(t, Retire(c, off)).0;
    var t2 := Next(t1, Pop(c)).0;
    var t3 := Next(t2, Pop(c)).0;
    IdleCursor(t3, c, off);
    CursorCrosses(t, Retire(c, off), c, w);
    CursorCrosses(t1, Pop(c), c, w);
    CursorCrosses(t2, Pop(c), c, w);
    CrossBounds(t, Retire(c, off), c, w);
    CrossBounds(t1, Pop(c), c, w);
    assert SkipsWord(t, Retire(c, off), c, w) == 0 && SkipsWord(t1, Pop(c), c, w) == 0;
    assert SkipsWord(t2, Pop(c), c, w) == 1;
    hide SkipsWord, Idle;
    SkipsOfCons(t2, Pop(c), rest, c, w);
    SkipsOfCons(t1, Pop(c), [Pop(c)] + rest, c, w);
    SkipsOfCons(t, Retire(c, off), [Pop(c)] + ([Pop(c)] + rest), c, w);
    assert [Retire(c, off)] + ([Pop(c)] + ([Pop(c)] + rest)) == [Retire(c, off), Pop(c), Pop(c)] + rest;
  }

  lemma NothingSkipped(t: Table, c: nat, w: nat)
    requires Inv(t) && c < 49
    ensures LegalRun(t, []) && WordSkips(t, [], c, w) == 0
  {
  }

  /** Such cycles skip every mask word from the slot's on once in each cycle, however many there are. */
  lemma {:induction false} SkippedEveryCycle(t: Table, c: nat, off: nat, k: nat, w: nat)
    requires Inv(t) && c < 49 && off < 262144 && Idle(t, c, off) && off / 16384 <= w < 16
    ensures LegalRun(t, Cycles(c, off, k)) && WordSkips(t, Cycles(c, off, k), c, w) == k
    decreases k
  {
    hide Next, Legal, Inv, Step, Smallest, Sets, Free, Idle, LegalRun, WordSkips;
    if k == 0 {
      NothingSkipped(t, c, w);
    } else {
      var rest := Cycles(c, off, k - 1);
      forall u: Table | Inv(u) && Idle(u, c, off)
        ensures LegalRun(u, rest) && WordSkips(u, rest, c, w) == k - 1
      {
        SkippedEveryCycle(u, c, off, k - 1, w);
      }
      CycleSkips(t, c, off, rest, k - 1, w);
      assert Cycles(c, off, k) == [Retire(c, off), Pop(c), Pop(c)] + rest;
    }
  }

  lemma IdleCursor(t: Table, c: nat, off: nat)
    requires Inv(t) && c < 49 && off < 262144 && Idle(t, c, off)
    ensures t.cursor[c] == 16
  {
  }

  /** So on a fresh table two cycles on the first slot of sub-leaf 64 skip the words 1 to 15 twice. */
  lemma SkippedTwice(w: nat)
    requires 1 <= w < 16
    ensures Inv(Empty())
    ensures var ops := [Retire(0, 16384), Pop(0), Pop(0), Retire(0, 16384), Pop(0), Pop(0)];
      LegalRun(Empty(), ops) && WordSkips(Empty(), ops, 0, w) == 2
  {
    EmptyIsValid();
    SkippedEveryCycle(Empty(), 0, 16384, 2, w);
    assert Cycles(0, 16384, 2)
        == [Retire(0, 16384), Pop(0), Pop(0), Retire(0, 16384), Pop(0), Pop(0)] by { TwoCycles(0, 16384); }
  }

  lemma TwoCycles(c: nat, off: nat)
    ensures Cycles(c, off, 2) == [Retire(c, off), Pop(c), Pop(c), Retire(c, off), Pop(c), Pop(c)]
  {
    assert Cycles(c, off, 1) == [Retire(c, off), Pop(c), Pop(c)] + Cycles(c, off, 0);
  }
}
