/** The size-class table: a geometric run merged with exact extra classes, and the one-sub-leaf threshold. */
module ClassTable {
  import opened FreeSets

  const SLOT_BYTES: nat := 16
  const SUBLEAF_BYTES: nat := 4096
  const PROD_CLASSES: nat := 49
  const GEO_COUNT: nat := 40
  const EXTRAS: seq<nat> := [256, 512, 1024, 2048, 4096, 6144, 8192, 12288, 16384]

  /** The next geometric class: 1.25 times, rounded up to the 16-byte stride. */
  function Grow(v: nat): nat {
    ((v * 5 + 3) / 4 + SLOT_BYTES - 1) / SLOT_BYTES * SLOT_BYTES
  }

  /** The `k`-th geometric class. */
  function Geo(k: nat): nat {
    if k == 0 then SLOT_BYTES else Grow(Geo(k - 1))
  }

  /** The first `n` geometric classes. */
  function GeoRun(n: nat): (r: seq<nat>)
    ensures |r| == n && forall i | 0 <= i < n :: r[i] == Geo(i)
  {
    seq(n, i requires 0 <= i < n => Geo(i))
  }

  predicate Increasing(s: seq<nat>) {
    forall i, j | 0 <= i < j < |s| :: s[i] < s[j]
  }

  predicate Disjoint(extras: seq<nat>, geo: nat) {
    Elements(extras) !! Elements(GeoRun(geo))
  }

  lemma GrowMore(v: nat)
    requires v > 0
    ensures Grow(v) > v && Grow(v) % 16 == 0
  {
  }

  lemma {:induction false} GeoPositive(k: nat)
    ensures Geo(k) > 0 && Geo(k) % 16 == 0
  {
    if k > 0 {
      GeoPositive(k - 1);
      GrowMore(Geo(k - 1));
    }
  }

  lemma {:induction false} GeoGrows(i: nat, j: nat)
    requires i < j
    ensures Geo(i) < Geo(j)
  {
    hide Grow;
    GeoPositive(j - 1);
    GrowMore(Geo(j - 1));
    if i + 1 < j {
      GeoGrows(i, j - 1);
    }
  }

  lemma GeoIncreasing(n: nat)
    ensures Increasing(GeoRun(n))
  {
    forall i, j | 0 <= i < j < n
      ensures Geo(i) < Geo(j)
    {
      GeoGrows(i, j);
    }
  }

  /** The loop after consuming `e` extras and `g` geometric classes: `out` holds them sorted, without repeats. */
  ghost predicate Merged(extras: seq<nat>, e: nat, geo: seq<nat>, g: nat, out: seq<nat>)
    requires e <= |extras| && g <= |geo|
  {
    && Increasing(out)
    && (forall x :: x in out <==> x in extras[..e] || x in geo[..g])
    && (forall x | x in out && e < |extras| :: x < extras[e])
    && (forall x | x in out && g < |geo| :: x <= geo[g])
    && (forall x | x in geo[..g] && g < |geo| :: x < geo[g])
    && |out| <= e + g
    && (|out| == e + g <==> NoneShared(extras, e, geo, g))
  }

  ghost predicate NoneShared(extras: seq<nat>, e: nat, geo: seq<nat>, g: nat)
    requires e <= |extras| && g <= |geo|
  {
    forall x | x in extras[..e] :: x !in geo[..g]
  }

  lemma TakeExtra(extras: seq<nat>, e: nat, geo: seq<nat>, g: nat, out: seq<nat>)
    requires Increasing(extras) && e < |extras| && g <= |geo| && Merged(extras, e, geo, g, out)
    requires g < |geo| ==> extras[e] <= geo[g]
    ensures Merged(extras, e + 1, geo, g, out + [extras[e]])
  {
    var x := extras[e];
    assert extras[..e + 1] == extras[..e] + [x];
    assert x !in geo[..g] by {
      assert x !in out;
    }
    Append(out, x);
    assert NoneShared(extras, e + 1, geo, g) <==> NoneShared(extras, e, geo, g) by {
      assert forall y :: y in extras[..e + 1] <==> y in extras[..e] || y == x;
    }
  }

  lemma Append(out: seq<nat>, x: nat)
    requires Increasing(out) && forall y | y in out :: y < x
    ensures Increasing(out + [x]) && forall y :: y in out + [x] <==> y in out || y == x
  {
    assert forall i | 0 <= i < |out| :: out[i] in out;
  }

  lemma TakeGeo(extras: seq<nat>, e: nat, geo: seq<nat>, g: nat, out: seq<nat>)
    requires Increasing(extras) && Increasing(geo) && e <= |extras| && g < |geo| && Merged(extras, e, geo, g, out)
    requires e < |extras| ==> geo[g] < extras[e]
    ensures geo[g] in out ==> Merged(extras, e, geo, g + 1, out)
    ensures geo[g] !in out ==> Merged(extras, e, geo, g + 1, out + [geo[g]])
  {
    var x := geo[g];
    assert geo[..g + 1] == geo[..g] + [x];
    assert forall y :: y in geo[..g + 1] <==> y in geo[..g] || y == x;
    if x in out {
      assert x in extras[..e];
    } else {
      Append(out, x);
      assert x !in extras[..e];
      assert NoneShared(extras, e, geo, g + 1) <==> NoneShared(extras, e, geo, g);
    }
  }

  /** In a sorted prefix bounded by `x`, comparing with the last entry decides membership. */
  lemma LastDecides(out: seq<nat>, x: nat)
    requires Increasing(out) && forall y | y in out :: y <= x
    ensures (out == [] || x > out[|out| - 1]) <==> x !in out
  {
    if out != [] {
      var last := out[|out| - 1];
      assert last in out && forall y | y in out :: y <= last;
    }
  }

  /**
    * The merge loop. `ok` is false when it would count the geometric classes below zero, which is
    * exactly when the two runs share a value; otherwise the table is their sorted merge.
    */
  method BuildClassSizes(extras: seq<nat>, geo: nat) returns (ok: bool, table: array<nat>)
    requires Increasing(extras) && forall i | 0 <= i < |extras| :: extras[i] > 0
    ensures table.Length == |extras| + geo
    ensures ok <==> Disjoint(extras, geo)
    ensures ok ==> Increasing(table[..]) && Elements(table[..]) == Elements(extras) + Elements(GeoRun(geo))
  {
    hide Increasing, Merged, NoneShared, Elements, Grow;
    table := new nat[|extras| + geo];
    var size: nat, geoLeft: nat, e: nat, i: nat := SLOT_BYTES, geo, 0, 0;
    ghost var run := GeoRun(geo);
    GeoIncreasing(geo);
    MergedStart(extras, run);
    while i < table.Length
      invariant e <= |extras| && geoLeft <= geo && i <= table.Length
      invariant size == Geo(geo - geoLeft)
      invariant Merged(extras, e, run, geo - geoLeft, table[..i])
      decreases |extras| - e + geoLeft
    {
      var next;
      ghost var g := geo - geoLeft;
      ghost var out := table[..i];
      if e < |extras| && (geoLeft == 0 || extras[e] <= size) {
        TakeExtra(extras, e, run, g, out);
        MergedLast(extras, e, run, g, out);
        next := extras[e];
        e := e + 1;
      } else {
        if geoLeft == 0 {
          MergedEnd(extras, run, out);
          return false, table;
        }
        TakeGeo(extras, e, run, g, out);
        MergedLast(extras, e, run, g, out);
        next := size;
        size := Grow(next);
        geoLeft := geoLeft - 1;
      }
      if i == 0 || next > table[i - 1] {
        table[i] := next;
        i := i + 1;
        assert table[..i] == out + [next];
      }
    }
    assert table[..i] == table[..];
    MergedFull(extras, e, run, geo - geoLeft, table[..]);
    MergedEnd(extras, run, table[..]);
    ok := true;
  }

  lemma MergedStart(extras: seq<nat>, geo: seq<nat>)
    ensures Merged(extras, 0, geo, 0, [])
  {
  }

  /** What comparing with the last entry tells the loop about its two candidates. */
  lemma MergedLast(extras: seq<nat>, e: nat, geo: seq<nat>, g: nat, out: seq<nat>)
    requires e <= |extras| && g <= |geo| && Merged(extras, e, geo, g, out)
    ensures e < |extras| && out != [] ==> extras[e] > out[|out| - 1]
    ensures g < |geo| ==> ((out == [] || geo[g] > out[|out| - 1]) <==> geo[g] !in out)
  {
    if out != [] {
      assert out[|out| - 1] in out;
    }
    if g < |geo| {
      LastDecides(out, geo[g]);
    }
  }

  lemma MergedEnd(extras: seq<nat>, geo: seq<nat>, out: seq<nat>)
    requires Merged(extras, |extras|, geo, |geo|, out)
    ensures Increasing(out) && Elements(out) == Elements(extras) + Elements(geo)
    ensures |out| == |extras| + |geo| <==> Elements(extras) !! Elements(geo)
  {
    assert extras[..|extras|] == extras && geo[..|geo|] == geo;
    assert NoneShared(extras, |extras|, geo, |geo|) <==> Elements(extras) !! Elements(geo) by {
      if NoneShared(extras, |extras|, geo, |geo|) {
        assert forall x | x in Elements(extras) :: x in extras && x !in geo;
      }
      if Elements(extras) !! Elements(geo) {
        assert forall x | x in extras :: x in Elements(extras) && x !in Elements(geo);
      }
    }
  }

  lemma MergedFull(extras: seq<nat>, e: nat, geo: seq<nat>, g: nat, out: seq<nat>)
    requires e <= |extras| && g <= |geo| && Merged(extras, e, geo, g, out) && |out| == |extras| + |geo|
    ensures e == |extras| && g == |geo|
  {
  }

  /** Sub-leaves that one block spans. */
  function SpanOf(blockSize: nat): nat {
    (blockSize + SUBLEAF_BYTES - 1) / SUBLEAF_BYTES
  }

  /** The last class whose block fits one sub-leaf: in a sorted table, exactly the classes up to it do. */
  method LastSingleSubleafClass(sizes: seq<nat>) returns (last: nat)
    requires sizes != [] && Increasing(sizes) && 0 < sizes[0] <= SUBLEAF_BYTES
    ensures last < |sizes|
    ensures forall c | 0 <= c < |sizes| :: SpanOf(sizes[c]) == 1 <==> c <= last
  {
    last := 0;
    for c := 0 to |sizes|
      invariant last < |sizes| && (c > 0 ==> last < c)
      invariant forall d | 0 <= d < c :: SpanOf(sizes[d]) == 1 <==> d <= last
    {
      if SpanOf(sizes[c]) == 1 {
        SpansBelow(sizes, c);
        last := c;
      }
    }
  }

  /** Below a class of span one every class has span one. */
  lemma SpansBelow(sizes: seq<nat>, c: nat)
    requires Increasing(sizes) && c < |sizes| && sizes[0] > 0 && SpanOf(sizes[c]) == 1
    ensures forall d | 0 <= d <= c :: SpanOf(sizes[d]) == 1
  {
    forall d | 0 <= d <= c
      ensures SpanOf(sizes[d]) == 1
    {
      assert 0 < sizes[0] <= sizes[d] <= sizes[c] <= SUBLEAF_BYTES;
    }
  }

  lemma GeoStep(k: nat, v: nat, next: nat)
    requires Geo(k) == v && Grow(v) == next
    ensures Geo(k + 1) == next
  {
  }

  lemma LowGeometricSizes()
    ensures Geo(8) == 240 && Geo(9) == 304
  {
    assert Geo(0) == 16;
    hide Geo;
    GeoStep(0, 16, 32); GeoStep(1, 32, 48); GeoStep(2, 48, 64);
    GeoStep(3, 64, 80); GeoStep(4, 80, 112); GeoStep(5, 112, 144);
    GeoStep(6, 144, 192); GeoStep(7, 192, 240); GeoStep(8, 240, 304);
  }

  lemma FirstGeometricSizes()
    ensures Geo(8) == 240 && Geo(9) == 304 && Geo(11) == 480 && Geo(12) == 608
    ensures Geo(14) == 960 && Geo(15) == 1200 && Geo(17) == 1888 && Geo(18) == 2368
  {
    LowGeometricSizes();
    hide Geo;
    GeoStep(9, 304, 384); GeoStep(10, 384, 480); GeoStep(11, 480, 608);
    GeoStep(12, 608, 768); GeoStep(13, 768, 960); GeoStep(14, 960, 1200);
    GeoStep(15, 1200, 1504); GeoStep(16, 1504, 1888); GeoStep(17, 1888, 2368);
  }

  lemma NextGeometricSizes()
    ensures Geo(20) == 3712 && Geo(21) == 4640 && Geo(22) == 5808 && Geo(23) == 7264
    ensures Geo(24) == 9088 && Geo(25) == 11360 && Geo(26) == 14208 && Geo(27) == 17760
  {
    FirstGeometricSizes();
    hide Geo;
    GeoStep(18, 2368, 2960); GeoStep(19, 2960, 3712); GeoStep(20, 3712, 4640);
    GeoStep(21, 4640, 5808); GeoStep(22, 5808, 7264); GeoStep(23, 7264, 9088);
    GeoStep(24, 9088, 11360); GeoStep(25, 11360, 14208); GeoStep(26, 14208, 17760);
  }

  /** A value strictly between two neighbours of the run is not in it. */
  lemma BetweenNeighbours(k: nat, x: nat, n: nat)
    requires Geo(k) < x < Geo(k + 1)
    ensures x !in GeoRun(n)
  {
    forall i | 0 <= i < n
      ensures Geo(i) != x
    {
      if i < k {
        GeoGrows(i, k);
      } else if i > k + 1 {
        GeoGrows(k + 1, i);
      }
    }
  }

  /** The production runs share no value, so the production table is their merge. */
  lemma ProductionRunsDisjoint()
    ensures Increasing(EXTRAS) && Disjoint(EXTRAS, GEO_COUNT) && |EXTRAS| + GEO_COUNT == PROD_CLASSES
  {
    hide Geo, GeoRun, EXTRAS, Increasing, Elements;
    ExtrasIncrease();
    ExtrasAre();
    FirstGeometricSizes();
    NextGeometricSizes();
    BetweenNeighbours(8, 256, 40);
    BetweenNeighbours(11, 512, 40);
    BetweenNeighbours(14, 1024, 40);
    BetweenNeighbours(17, 2048, 40);
    BetweenNeighbours(20, 4096, 40);
    BetweenNeighbours(22, 6144, 40);
    BetweenNeighbours(23, 8192, 40);
    BetweenNeighbours(25, 12288, 40);
    BetweenNeighbours(26, 16384, 40);
    ElementsAre(GeoRun(40));
  }

  lemma ExtrasIncrease()
    ensures Increasing(EXTRAS) && |EXTRAS| == 9
  {
  }

  lemma ElementsAre(s: seq<nat>)
    ensures forall x :: x in Elements(s) <==> x in s
  {
  }

  /** In a sorted table the index of an entry counts the smaller entries. */
  lemma IndexIsRank(table: seq<nat>, k: nat)
    requires Increasing(table) && k < |table|
    ensures |set y | y in table && y < table[k]| == k
  {
    assert Distinct(table[..k]);
    SizeOfDistinct(table[..k]);
    assert Elements(table[..k]) == set y | y in table && y < table[k];
  }

  /** The production table has 26 classes of span one, 0 to 25; class 25 is the 4096-byte class. */
  lemma ProductionThreshold(table: seq<nat>)
    requires Increasing(table) && Elements(table) == Elements(EXTRAS) + Elements(GeoRun(GEO_COUNT))
    ensures |table| > 25 && table[25] == 4096
    ensures forall c | 0 <= c < |table| :: SpanOf(table[c]) == 1 <==> c <= 25
  {
    assert EXTRAS[4] in EXTRAS && 4096 in Elements(EXTRAS) && 4096 in Elements(table);
    var k :| 0 <= k < |table| && table[k] == 4096;
    assert (set y | y in table && y < 4096) == set y | y in table && y < table[k];
    IndexIsRank(table, k);
    BelowTheSubleaf(table);
    forall c | 0 <= c < |table|
      ensures table[c] > 0
    {
      EntryPositive(table, table[c]);
    }
  }

  lemma EntryPositive(table: seq<nat>, x: nat)
    requires Elements(table) == Elements(EXTRAS) + Elements(GeoRun(GEO_COUNT)) && x in table
    ensures x > 0
  {
    assert x in Elements(table);
    if x in Elements(GeoRun(GEO_COUNT)) {
      var i :| 0 <= i < 40 && GeoRun(GEO_COUNT)[i] == x;
      GeoPositive(i);
    }
  }

  lemma BelowTheSubleaf(table: seq<nat>)
    requires Elements(table) == Elements(EXTRAS) + Elements(GeoRun(GEO_COUNT))
    ensures |set y | y in table && y < 4096| == 25
  {
    var low, high := Elements(GeoRun(21)), {256, 512, 1024, 2048};
    assert |low| == 21 by {
      GeoIncreasing(21);
      assert Distinct(GeoRun(21));
      SizeOfDistinct(GeoRun(21));
    }
    forall y
      ensures y in table && y < 4096 <==> y in low + high
    {
      LowEntry(table, y);
    }
    assert low !! high by {
      forall y | y in low
        ensures y !in high
      {
        LowGeometric(y);
        ProductionRunsDisjoint();
        ExtrasAre();
      }
    }
    assert (set y | y in table && y < 4096) == low + high;
    assert |low + high| == |low| + |high|;
  }

  lemma ExtrasAre()
    ensures Elements(EXTRAS) == {256, 512, 1024, 2048, 4096, 6144, 8192, 12288, 16384}
  {
  }

  lemma LowEntry(table: seq<nat>, y: nat)
    requires Elements(table) == Elements(EXTRAS) + Elements(GeoRun(GEO_COUNT))
    ensures y in table && y < 4096 <==> y in Elements(GeoRun(21)) + {256, 512, 1024, 2048}
  {
    LowGeometric(y);
    ExtrasAre();
    hide Geo, GeoRun;
    assert y in table <==> y in Elements(table);
  }

  lemma LowGeometric(y: nat)
    ensures y in Elements(GeoRun(GEO_COUNT)) && y < 4096 <==> y in Elements(GeoRun(21))
  {
    NextGeometricSizes();
    hide Geo;
    var all, low := GeoRun(GEO_COUNT), GeoRun(21);
    if y in all && y < 4096 {
      var i :| 0 <= i < 40 && all[i] == y;
      if i > 21 {
        GeoGrows(21, i);
      }
      assert low[i] == y;
    }
    if y in low {
      var i :| 0 <= i < 21 && low[i] == y;
      assert all[i] == y;
      if i < 20 {
        GeoGrows(i, 20);
      }
    }
  }
}
