/** Candidate B's rotating hints: where they stand after a run, and the order of issue that they make. */
module CountedOrder {
  import opened Words
  import opened Bitmaps
  import opened FreeSets
  import opened Scripts
  import opened CountedTable
  import opened CountedLaws
  import opened CountedRuns

  // ---- The hints ----

  /** The hint of a leaf is the word of the slot last issued from it, or the hint from before when there is none. */
  ghost predicate Follows(before: nat, after: nat, issued: seq<nat>, leaf: nat) {
    || (after == before && forall i | 0 <= i < |issued| :: issued[i] / 4096 != leaf)
    || exists i :: 0 <= i < |issued| && issued[i] / 4096 == leaf && after == issued[i] % 4096 / 64
         && forall j | i < j < |issued| :: issued[j] / 4096 != leaf
  }

  lemma FollowsOn(a: nat, b: nat, d: nat, x: seq<nat>, y: seq<nat>, leaf: nat)
    requires Follows(a, b, x, leaf) && Follows(b, d, y, leaf)
    ensures Follows(a, d, x + y, leaf)
  {
    var s := x + y;
    if exists i | 0 <= i < |y| :: y[i] / 4096 == leaf {
      var i :| 0 <= i < |y| && y[i] / 4096 == leaf && d == y[i] % 4096 / 64
        && forall j | i < j < |y| :: y[j] / 4096 != leaf;
      assert s[|x| + i] == y[i];
      assert forall j | |x| + i < j < |s| :: s[j] == y[j - |x|];
    } else if exists i | 0 <= i < |x| :: x[i] / 4096 == leaf {
      var i :| 0 <= i < |x| && x[i] / 4096 == leaf && b == x[i] % 4096 / 64
        && forall j | i < j < |x| :: x[j] / 4096 != leaf;
      assert s[i] == x[i];
    }
  }

  /** All hints follow what was issued. */
  ghost predicate AllFollow(t: Table, t': Table, issued: seq<nat>)
    requires Shape(t) && Shape(t')
  {
    forall leaf: nat | leaf < 64 :: Follows(t.hdr[leaf].firstHint, t'.hdr[leaf].firstHint, issued, leaf)
  }

  lemma AllFollowOn(t: Table, u: Table, v: Table, x: seq<nat>, y: seq<nat>)
    requires Shape(t) && Shape(u) && Shape(v) && AllFollow(t, u, x) && AllFollow(u, v, y)
    ensures AllFollow(t, v, x + y)
  {
    hide Follows;
    forall leaf: nat | leaf < 64
      ensures Follows(t.hdr[leaf].firstHint, v.hdr[leaf].firstHint, x + y, leaf)
    {
      FollowsOn(t.hdr[leaf].firstHint, u.hdr[leaf].firstHint, v.hdr[leaf].firstHint, x, y, leaf);
    }
  }

  /** `pop` leaves the hint of its leaf at the word of its answer, and every other header alone. */
  lemma PopHint(t: Table, c: nat)
    requires Inv(t) && c < 8
    ensures WellFormed(t)
    ensures var (t', r) := CountedTable.Pop(t, c);
      && (r == None ==> t' == t)
      && (r.Some? ==>
            && r.value < 262144
            && t'.hdr[r.value / 4096].firstHint == r.value % 4096 / 64
            && forall leaf: nat | leaf < 64 && leaf != r.value / 4096 :: t'.hdr[leaf] == t.hdr[leaf])
  {
    InvIsWellFormed(t);
    if t.classWords[c] != 0 {
      ScanFinds(t, c);
      var li := TrailingZeros(t.classWords[c]);
      var w := (t.hdr[li].firstHint + Scan(t.occ, li, t.hdr[li].firstHint)) % 64;
      WordHasSlot(t, li, w);
      ZeroOrBit(t.occ[64 * li + w]);
      hide CountsExact, LinksExact, Scan, ClearLowest, AndNot, Mask, TrailingZeros;
    }
  }

  lemma PopFollows(t: Table, c: nat)
    requires Inv(t) && c < 8
    ensures WellFormed(t) && Shape(CountedTable.Pop(t, c).0)
    ensures var (t', r) := CountedTable.Pop(t, c); AllFollow(t, t', if r == None then [] else [r.value])
  {
    hide CountedTable.Pop, CountsExact, LinksExact, HintsInRange, Follows;
    PopHint(t, c);
    PopEffect(t, c);
    var (t', r) := CountedTable.Pop(t, c);
    forall leaf: nat | leaf < 64
      ensures Follows(t.hdr[leaf].firstHint, t'.hdr[leaf].firstHint, if r == None then [] else [r.value], leaf)
    {
      OneFollows(t.hdr[leaf].firstHint, t'.hdr[leaf].firstHint, if r == None then [] else [r.value], leaf);
    }
  }

  lemma OneFollows(before: nat, after: nat, issued: seq<nat>, leaf: nat)
    requires |issued| <= 1
    requires after == if issued != [] && issued[0] / 4096 == leaf then issued[0] % 4096 / 64 else before
    ensures Follows(before, after, issued, leaf)
  {
  }

  lemma {:induction false} PopManyFollows(t: Table, c: nat, n: nat)
    requires Inv(t) && c < 8
    ensures var (t', issued) := PopMany(t, c, n); Inv(t') && AllFollow(t, t', issued)
    decreases n
  {
    hide CountsExact, LinksExact, HintsInRange, CountedTable.Pop, Follows;
    PopManyEffect(t, c, n);
    if n == 0 {
      NothingIssued(t, t);
    } else {
      PopEffect(t, c);
      PopFollows(t, c);
      var (t1, r) := CountedTable.Pop(t, c);
      if r != None {
        PopManyFollows(t1, c, n - 1);
        var (t2, rest) := PopMany(t1, c, n - 1);
        AllFollowOn(t, t1, t2, [r.value], rest);
      }
    }
  }

  lemma NothingIssued(t: Table, t': Table)
    requires Shape(t) && Shape(t') && SameHints(t', t)
    ensures AllFollow(t, t', [])
  {
  }

  /** Retires, flushes, primings and merges leave every hint alone; pops and drains move those of their leaves. */
  lemma NextFollows(t: Table, op: Op)
    requires Inv(t) && Legal(t, op)
    ensures Inv(Next(t, op).0) && AllFollow(t, Next(t, op).0, Next(t, op).1)
  {
    NextRefines(t, op);
    hide CountsExact, LinksExact, HintsInRange, CountedTable.Pop, PopMany, RetireMany, Or, OrRange, PopCounts, Step;
    var (t', out) := Next(t, op);
    match op
    case Retire(c, off) =>
      assert Retired(op)[0] == off;
      OtherHeaders(t, c, off, 0);
      NothingIssued(t, t');
    case Pop(c) => PopFollows(t, c);
    case Drain(c, n) => PopManyFollows(t, c, n);
    case Flush(c, offs) =>
      RetireManyEffect(t, c, offs);
      NothingIssued(t, t');
    case Prime(_, _) => NothingIssued(t, t');
    case Merge(_, _, _) => NothingIssued(t, t');
  }

  /** Everything a run issues, in order. */
  function Concat(outs: seq<seq<nat>>): seq<nat> {
    if outs == [] then [] else outs[0] + Concat(outs[1..])
  }

  /** Over any legal run: the hint of a leaf ends at the word of the slot last issued from it. */
  lemma {:induction false} RunFollows(t: Table, ops: seq<Op>)
    requires Inv(t) && LegalRun(t, ops)
    ensures AllFollow(t, Tables(t, ops)[|ops|], Concat(Outs(t, ops)))
    decreases |ops|
  {
    hide Next, Legal, CountsExact, LinksExact, HintsInRange, Follows;
    if ops == [] {
      NothingIssued(t, t);
    } else {
      RunUnfolds(t, ops);
      NextFollows(t, ops[0]);
      var (t1, out) := Next(t, ops[0]);
      RunFollows(t1, ops[1..]);
      AllFollowOn(t, t1, Tables(t1, ops[1..])[|ops| - 1], out, Concat(Outs(t1, ops[1..])));
      assert Outs(t, ops)[1..] == Outs(t1, ops[1..]);
    }
  }

  // ---- The order of issue ----

  /** Leaf by leaf, and in a leaf going round from its hint: where slot `s` comes in the class's order of issue. */
  function Place(t: Table, s: nat): nat
    requires Shape(t) && s < 262144
  {
    4096 * (s / 4096) + CyclicDistance(t.hdr[s / 4096].firstHint, s % 4096)
  }

  /** The list goes up in the order of issue that the hints of `t` make. */
  predicate InOrder(t: Table, s: seq<nat>)
    requires Shape(t)
  {
    InSegment(s) && forall i, j | 0 <= i < j < |s| :: Place(t, s[i]) < Place(t, s[j])
  }

  /** No two slots have one place. */
  lemma PlacesDiffer(start: nat, x: nat, y: nat)
    requires start < 64 && x < 4096 && y < 4096 && x != y
    ensures CyclicDistance(start, x) != CyclicDistance(start, y)
  {
    RoundTheLeaf(start, x / 64, 0);
    RoundTheLeaf(start, y / 64, 0);
  }

  lemma DistanceInLeaf(start: nat, x: nat)
    requires start < 64 && x < 4096
    ensures CyclicDistance(start, x) < 4096
  {
  }

  /** `pop` takes the first in order. */
  lemma PopIsFirst(t: Table, c: nat, s: nat)
    requires Inv(t) && c < 8 && s in Free(t, c)
    ensures WellFormed(t)
    ensures var r := CountedTable.Pop(t, c).1;
      r != None && r.value in Free(t, c) && (s == r.value || Place(t, r.value) < Place(t, s))
  {
    PopOrder(t, c, s);
    PopEffect(t, c);
    hide CountedTable.Pop, CountsExact, LinksExact, CyclicDistance;
    var r := CountedTable.Pop(t, c).1.value;
    var hint := t.hdr[s / 4096].firstHint;
    DistanceInLeaf(t.hdr[r / 4096].firstHint, r % 4096);
    if s != r && s / 4096 == r / 4096 {
      PlacesDiffer(hint, s % 4096, r % 4096);
    }
  }

  /** Steps from `start` to a word: as many as from `start` to a nearer one, and from there on. */
  lemma StepsOn(start: nat, v: nat, w: nat)
    requires start < 64 && v < 64 && w < 64 && (v + 64 - start) % 64 <= (w + 64 - start) % 64
    ensures (w + 64 - v) % 64 == (w + 64 - start) % 64 - (v + 64 - start) % 64
  {
    assert (v + 64 - start) % 64 == if v < start then v + 64 - start else v - start;
    assert (w + 64 - start) % 64 == if w < start then w + 64 - start else w - start;
    assert (w + 64 - v) % 64 == if w < v then w + 64 - v else w - v;
  }

  /** Moving on to the word of the slot just taken leaves those behind it in their order. */
  lemma MovesOn(start: nat, first: nat, x: nat)
    requires start < 64 && first < 4096 && x < 4096
    requires CyclicDistance(start, first) <= CyclicDistance(start, x)
    ensures CyclicDistance(first / 64, x)
         == CyclicDistance(start, x) - 64 * ((first / 64 + 64 - start) % 64)
  {
    var i, k := (first / 64 + 64 - start) % 64, (x / 64 + 64 - start) % 64;
    Distances(start, first / 64, first % 64, i);
    Distances(start, x / 64, x % 64, k);
    assert 64 * (first / 64) + first % 64 == first && 64 * (x / 64) + x % 64 == x;
    hide CyclicDistance;
    assert i <= k;
    StepsOn(start, first / 64, x / 64);
    Distances(first / 64, x / 64, x % 64, k - i);
  }

  lemma PopKeepsOrder(t: Table, c: nat, x: nat, y: nat)
    requires Inv(t) && c < 8 && WellFormed(t)
    requires var t' := CountedTable.Pop(t, c).0; Shape(t') && x in Free(t', c) && y in Free(t', c)
    ensures var t' := CountedTable.Pop(t, c).0; Place(t', x) < Place(t', y) <==> Place(t, x) < Place(t, y)
  {
    PopHint(t, c);
    PopEffect(t, c);
    var (t', r) := CountedTable.Pop(t, c);
    if r != None {
      PopIsFirst(t, c, x);
      PopIsFirst(t, c, y);
      hide CountedTable.Pop, CountsExact, LinksExact, CyclicDistance, Free;
      SamePlaces(t, t', r.value, x, y);
    }
  }

  lemma SamePlaces(t: Table, t': Table, s: nat, x: nat, y: nat)
    requires Shape(t) && Shape(t') && HintsInRange(t) && s < 262144 && x < 262144 && y < 262144
    requires Place(t, s) <= Place(t, x) && Place(t, s) <= Place(t, y)
    requires t'.hdr[s / 4096].firstHint == s % 4096 / 64
    requires forall leaf: nat | leaf < 64 && leaf != s / 4096 :: t'.hdr[leaf] == t.hdr[leaf]
    ensures Place(t', x) < Place(t', y) <==> Place(t, x) < Place(t, y)
  {
    hide CyclicDistance;
    var start := t.hdr[s / 4096].firstHint;
    DistanceInLeaf(t.hdr[x / 4096].firstHint, x % 4096);
    DistanceInLeaf(t.hdr[y / 4096].firstHint, y % 4096);
    DistanceInLeaf(s % 4096 / 64, x % 4096);
    DistanceInLeaf(s % 4096 / 64, y % 4096);
    if x / 4096 == s / 4096 {
      MovesOn(start, s % 4096, x % 4096);
    }
    if y / 4096 == s / 4096 {
      MovesOn(start, s % 4096, y % 4096);
    }
  }

  /** The first slot, in front of a list that is in order for the table it leaves. */
  lemma OrderCons(t: Table, c: nat, rest: seq<nat>, left: set<nat>)
    requires Inv(t) && c < 8 && WellFormed(t) && CountedTable.Pop(t, c).1.Some?
    requires var t' := CountedTable.Pop(t, c).0;
      && Inv(t') && InOrder(t', rest) && left <= Free(t', c) && Elements(rest) <= Free(t', c)
      && forall i, x | 0 <= i < |rest| && x in left :: Place(t', rest[i]) < Place(t', x)
    ensures var issued := [CountedTable.Pop(t, c).1.value] + rest;
      InOrder(t, issued) && forall i, x | 0 <= i < |issued| && x in left :: Place(t, issued[i]) < Place(t, x)
  {
    FirstAndRest(t, c);
    hide CountedTable.Pop, Inv, WellFormed, Place, Free;
    var (t', r) := CountedTable.Pop(t, c);
    assert forall i | 0 <= i < |rest| :: rest[i] in Elements(rest);
  }

  /** The slot popped comes before those left, and those keep their order. */
  lemma FirstAndRest(t: Table, c: nat)
    requires Inv(t) && c < 8
    ensures WellFormed(t)
    ensures var (t', r) := CountedTable.Pop(t, c);
      && Inv(t') && (r.Some? ==> r.value < 262144)
      && (forall x | x in Free(t', c) :: x < 262144)
      && (r.Some? ==> forall x | x in Free(t', c) :: Place(t, r.value) < Place(t, x))
      && forall x, y | x in Free(t', c) && y in Free(t', c) :: Place(t', x) < Place(t', y) <==> Place(t, x) < Place(t, y)
  {
    PopEffect(t, c);
    hide CountedTable.Pop, CountsExact, LinksExact, HintsInRange, Place;
    var (t', r) := CountedTable.Pop(t, c);
    forall x | x in Free(t', c) && r.Some?
      ensures Place(t, r.value) < Place(t, x)
    {
      PopIsFirst(t, c, x);
    }
    forall x, y | x in Free(t', c) && y in Free(t', c)
      ensures Place(t', x) < Place(t', y) <==> Place(t, x) < Place(t, y)
    {
      PopKeepsOrder(t, c, x, y);
    }
  }

  /**
    * A drain issues the first `n` slots of the class in the order that the hints make: lowest leaf first, and in
    * a leaf going round from its hint.
    */
  lemma {:induction false} DrainOrder(t: Table, c: nat, n: nat)
    requires Inv(t) && c < 8
    ensures var (t', issued) := PopMany(t, c, n);
      && Inv(t') && InOrder(t, issued)
      && forall i, x | 0 <= i < |issued| && x in Free(t', c) :: Place(t, issued[i]) < Place(t, x)
    decreases n
  {
    hide CountsExact, LinksExact, HintsInRange, WellFormed, CountedTable.Pop, Free, Bindings, Place, InOrder;
    PopManyEffect(t, c, n);
    PopEffect(t, c);
    NoneInOrder(t);
    if n > 0 {
      var (t1, r) := CountedTable.Pop(t, c);
      if r != None {
        DrainOrder(t1, c, n - 1);
        PopManyEffect(t1, c, n - 1);
        OrderCons(t, c, PopMany(t1, c, n - 1).1, Free(PopMany(t1, c, n - 1).0, c));
      }
    }
  }

  lemma NoneInOrder(t: Table)
    requires Shape(t)
    ensures InOrder(t, [])
  {
  }

  /** A list in order is determined by what it holds. */
  lemma {:induction false} OrderDetermines(t: Table, a: seq<nat>, b: seq<nat>)
    requires Shape(t) && InOrder(t, a) && InOrder(t, b) && Elements(a) == Elements(b)
    ensures a == b
    decreases |a|
  {
    hide Place;
    assert forall i | 0 <= i < |a| :: a[i] in Elements(b);
    assert forall i | 0 <= i < |b| :: b[i] in Elements(a);
    if a != [] && b != [] {
      var i, j :| 0 <= i < |b| && b[i] == a[0] && 0 <= j < |a| && a[j] == b[0];
      assert a[0] == b[0];
      InOrderTail(t, a);
      InOrderTail(t, b);
      OrderDetermines(t, a[1..], b[1..]);
    }
  }

  lemma InOrderTail(t: Table, a: seq<nat>)
    requires Shape(t) && InOrder(t, a) && a != []
    ensures InOrder(t, a[1..]) && Elements(a[1..]) == Elements(a) - {a[0]}
  {
    hide Place;
    assert forall i | 0 <= i < |a[1..]| :: a[1..][i] == a[i + 1];
    assert a == [a[0]] + a[1..];
  }

  // ---- The one-class churn ----

  /** The slots 0 to 255 going round from the start of word `h`. */
  function Round(h: nat): (r: seq<nat>)
    ensures |r| == 256
  {
    seq(256, i requires 0 <= i < 256 => (i + 64 * h) % 256)
  }

  /** The churn's working set, free in class 0, with leaf 0's hint at word `h`. */
  ghost predicate Churning(t: Table, h: nat) {
    Inv(t) && h < 4 && t.hdr[0].firstHint == h && Free(t, 0) == Elements(Round(0))
  }

  lemma RoundHolds(h: nat)
    requires h < 4
    ensures forall s: nat :: s in Elements(Round(h)) <==> s < 256
    ensures Elements(Round(h)) == Elements(Round(0)) && |Elements(Round(0))| == 256
  {
    RoundHas(h);
    RoundHas(0);
    SizeOfDistinct(Round(0));
  }

  lemma RoundHas(h: nat)
    requires h < 4
    ensures forall s: nat :: s in Elements(Round(h)) <==> s < 256
  {
    forall s: nat | s < 256
      ensures s in Round(h)
    {
      var i := if s < 64 * h then s + 256 - 64 * h else s - 64 * h;
      assert Round(h)[i] == s;
    }
  }

  lemma RoundPlace(h: nat, i: nat)
    requires h < 4 && i < 256
    ensures CyclicDistance(h, Round(h)[i]) == if i < 256 - 64 * h then i else i + 60 * 64
  {
    hide CyclicDistance;
    var x := Round(h)[i];
    if i < 256 - 64 * h {
      assert x == i + 64 * h;
      Distances(h, i / 64 + h, i % 64, i / 64);
    } else {
      assert x == i + 64 * h - 256;
      Distances(h, i / 64 + h - 4, i % 64, i / 64 + 60);
    }
  }

  lemma RoundInOrder(t: Table, h: nat)
    requires Churning(t, h)
    ensures InOrder(t, Round(h))
  {
    hide CountsExact, LinksExact, HintsInRange, Free, CyclicDistance, Round;
    assert forall i | 0 <= i < 256 :: Round(h)[i] in Elements(Round(h));
    RoundHolds(h);
    forall i, j | 0 <= i < j < 256
      ensures Place(t, Round(h)[i]) < Place(t, Round(h)[j])
    {
      RoundPlace(h, i);
      RoundPlace(h, j);
    }
  }

  /** A round of the churn issues the working set going round from the hint, and leaves the hint one word back. */
  lemma ChurnRound(t: Table, h: nat)
    requires Churning(t, h)
    ensures Legal(t, Drain(0, 256))
    ensures var (t1, issued) := Next(t, Drain(0, 256));
      && issued == Round(h)
      && Inv(t1) && Legal(t1, Flush(0, issued)) && Next(t1, Flush(0, issued)).1 == []
      && Churning(Next(t1, Flush(0, issued)).0, (h + 3) % 4)
  {
    hide CountsExact, LinksExact, HintsInRange, Round, Free, Bindings, Bind, PopMany, RetireMany, InOrder;
    ChurnDrain(t, h);
    FlushBackIsLegal(t, 0, 256);
    var (t1, issued) := PopMany(t, 0, 256);
    RetireManyEffect(t1, 0, issued);
  }

  lemma ChurnDrain(t: Table, h: nat)
    requires Churning(t, h)
    ensures var (t1, issued) := PopMany(t, 0, 256);
      && issued == Round(h) && Inv(t1) && t1.hdr[0].firstHint == (h + 3) % 4
      && Free(t1, 0) + Elements(issued) == Elements(Round(0))
  {
    hide CountsExact, LinksExact, HintsInRange, Round, Free, Bindings, PopMany, InOrder, Follows;
    DrainOrder(t, 0, 256);
    PopManyEffect(t, 0, 256);
    PopManyFollows(t, 0, 256);
    var (t1, issued) := PopMany(t, 0, 256);
    RoundHolds(h);
    SizeOfDistinct(issued);
    SubsetOfSameSize(Elements(issued), Free(t, 0));
    RoundInOrder(t, h);
    OrderDetermines(t, issued, Round(h));
    LastOfRound(t.hdr[0].firstHint, t1.hdr[0].firstHint, h);
    hide Elements;
  }

  lemma LastSlot(h: nat)
    requires h < 4
    ensures Round(h)[255] == 64 * ((h + 3) % 4) + 63
  {
    if h > 0 {
      assert 255 + 64 * h == 256 + (64 * (h - 1) + 63);
    }
  }

  lemma LastOfRound(before: nat, after: nat, h: nat)
    requires h < 4 && Follows(before, after, Round(h), 0)
    ensures after == (h + 3) % 4
  {
    LastSlot(h);
    assert forall i | 0 <= i < 256 :: Round(h)[i] < 256;
    hide Round;
  }

  /** `k` rounds from hint `h`: drain the working set, flush back what came out. */
  function ChurnOps(h: nat, k: nat): seq<Op>
    decreases k
  {
    if k == 0 then [] else [Drain(0, 256), Flush(0, Round(h))] + ChurnOps((h + 3) % 4, k - 1)
  }

  function ChurnOuts(h: nat, k: nat): seq<seq<nat>>
    decreases k
  {
    if k == 0 then [] else [Round(h), []] + ChurnOuts((h + 3) % 4, k - 1)
  }

  lemma {:induction false} ChurnRounds(t: Table, h: nat, k: nat)
    requires Inv(t) && Churning(t, h)
    ensures LegalRun(t, ChurnOps(h, k)) && Outs(t, ChurnOps(h, k)) == ChurnOuts(h, k)
    decreases k
  {
    hide Next, Legal, Inv, Round, Churning, LegalRun, Outs, ChurnOps, ChurnOuts;
    if k == 0 {
      NoRounds(t, h);
    } else {
      ChurnRound(t, h);
      var t1 := Next(t, Drain(0, 256)).0;
      var t2 := Next(t1, Flush(0, Round(h))).0;
      ChurningIsValid(t2, (h + 3) % 4);
      var rest := ChurnOps((h + 3) % 4, k - 1);
      ChurnRounds(t2, (h + 3) % 4, k - 1);
      RunStarts(t1, Flush(0, Round(h)), rest);
      RunStarts(t, Drain(0, 256), [Flush(0, Round(h))] + rest);
      ChurnUnfolds(h, k);
    }
  }

  lemma ChurnUnfolds(h: nat, k: nat)
    requires k > 0
    ensures ChurnOps(h, k) == [Drain(0, 256)] + ([Flush(0, Round(h))] + ChurnOps((h + 3) % 4, k - 1))
    ensures ChurnOuts(h, k) == [Round(h)] + ([[]] + ChurnOuts((h + 3) % 4, k - 1))
  {
  }

  lemma NoRounds(t: Table, h: nat)
    requires Inv(t)
    ensures LegalRun(t, ChurnOps(h, 0)) && Outs(t, ChurnOps(h, 0)) == ChurnOuts(h, 0)
  {
  }

  lemma ChurningIsValid(t: Table, h: nat)
    requires Churning(t, h)
    ensures Inv(t)
  {
  }

  /**
    * The churn driver on a fresh table, for any number of rounds: the first round issues the slots 0 to 255 in
    * order, the second starts with slot 192, the third with 128, the fourth with 64, and so on round.
    */
  lemma ChurnIssues(k: nat)
    ensures Inv(Empty())
    ensures var ops := [Flush(0, Round(0))] + ChurnOps(0, k);
      LegalRun(Empty(), ops) && Outs(Empty(), ops) == [[]] + ChurnOuts(0, k)
    ensures Round(0)[0] == 0 && Round(3)[0] == 192 && Round(2)[0] == 128 && Round(1)[0] == 64
  {
    EmptyIsValid();
    ChurnStarts();
    hide Inv, Next, Legal, LegalRun, Outs, ChurnOps, ChurnOuts, Churning, Empty;
    ChurnRounds(Next(Empty(), Flush(0, Round(0))).0, 0, k);
    RunStarts(Empty(), Flush(0, Round(0)), ChurnOps(0, k));
  }

  lemma ChurnStarts()
    ensures Inv(Empty()) && Legal(Empty(), Flush(0, Round(0)))
    ensures var (t, out) := Next(Empty(), Flush(0, Round(0))); out == [] && Inv(t) && Churning(t, 0)
  {
    EmptyIsValid();
    FreshRetirable();
    FreshHint();
    hide CountsExact, LinksExact, HintsInRange, RetireMany, Free, Round, Empty, Bind, Bindings;
    RetireManyEffect(Empty(), 0, Round(0));
  }

  lemma FreshHint()
    ensures Shape(Empty()) && Empty().hdr[0].firstHint == 0
  {
  }

  lemma FreshRetirable()
    ensures Shape(Empty()) && Retirable(Empty(), 0, Round(0))
  {
    EmptyIsValid();
    forall s: nat | s < 262144
      ensures !Has(Empty().occ, s)
    {
      HasIsFree(Empty(), s);
    }
    assert forall i | 0 <= i < 256 :: Round(0)[i] == i;
  }
}
