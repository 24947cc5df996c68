/** The carve layout of the production table fits the segment. */
module ProductionLayout {
  import opened Bitmaps
  import opened FreeSets
  import opened ClassTable
  import opened Tail

  /** The slots of the regions of the listed sizes, alignment aside. */
  function RegionSum(sizes: seq<nat>): nat {
    if sizes == [] then 0 else RegionSum(sizes[..|sizes| - 1]) + Region(sizes[|sizes| - 1])
  }

  /** Aligning a region wastes less than the region, so twice the sum bounds the layout. */
  lemma {:induction false} LayoutBound(sizes: seq<nat>, n: nat)
    requires BlockSizes(sizes) && n <= |sizes|
    ensures LayoutEnd(sizes, n) <= 2 * RegionSum(sizes[..n])
  {
    if n > 0 {
      LayoutBound(sizes, n - 1);
      assert sizes[..n][..n - 1] == sizes[..n - 1];
      RegionHoldsBlock(sizes[n - 1]);
      RoundUp(LayoutEnd(sizes, n - 1), Region(sizes[n - 1]));
    }
  }

  lemma SumOfMore(s: seq<nat>, x: nat)
    ensures RegionSum(s + [x]) == RegionSum(s) + Region(x)
  {
    assert (s + [x])[..|s|] == s;
  }

  lemma {:induction false} SumOfConcat(a: seq<nat>, b: seq<nat>)
    ensures RegionSum(a + b) == RegionSum(a) + RegionSum(b)
    decreases |b|
  {
    if b == [] {
      assert a + b == a;
    } else {
      var n := |b| - 1;
      SumOfConcat(a, b[..n]);
      SumOfMore(a + b[..n], b[n]);
      assert a + b == (a + b[..n]) + [b[n]];
    }
  }

  /** The sum does not depend on the order. */
  lemma {:induction false} SumOfSameElements(a: seq<nat>, b: seq<nat>)
    requires multiset(a) == multiset(b)
    ensures RegionSum(a) == RegionSum(b)
    decreases |a|
  {
    if a == [] {
      assert |b| == |multiset(b)| == 0;
    } else {
      var n := |a| - 1;
      assert a[n] in multiset(b);
      var k :| 0 <= k < |b| && b[k] == a[n];
      var rest := b[..k] + b[k + 1..];
      assert a == a[..n] + [a[n]] && b == b[..k] + [b[k]] + b[k + 1..];
      SameRest(a[..n], b[..k], b[k + 1..], a[n]);
      SumOfSameElements(a[..n], rest);
      SumOfMore(a[..n], a[n]);
      SumOfConcat(b[..k], b[k + 1..]);
      SumOfConcat(b[..k] + [b[k]], b[k + 1..]);
      SumOfMore(b[..k], b[k]);
    }
  }

  lemma SameRest(a: seq<nat>, left: seq<nat>, right: seq<nat>, x: nat)
    requires multiset(a + [x]) == multiset(left + [x] + right)
    ensures multiset(left + right) == multiset(a)
  {
    forall y
      ensures multiset(left + right)[y] == multiset(a)[y]
    {
      assert multiset(a + [x])[y] == multiset(left + [x] + right)[y];
    }
  }

  /** One more geometric class. */
  lemma Step(k: nat, v: nat, next: nat, before: nat, after: nat)
    requires Geo(k) == v && RegionSum(GeoRun(k)) == before
    requires next == Grow(v) && after == before + Region(v)
    ensures Geo(k + 1) == next && RegionSum(GeoRun(k + 1)) == after
  {
    GeoStep(k, v, next);
    hide Geo, Grow, Region;
    assert GeoRun(k + 1) == GeoRun(k) + [v];
    SumOfMore(GeoRun(k), v);
  }

  lemma Steps0()
    ensures Geo(0) == 16 && RegionSum(GeoRun(0)) == 0
  {
  }

  lemma Steps8()
    ensures Geo(8) == 240 && RegionSum(GeoRun(8)) == 2048
  {
    hide Geo, GeoRun, RegionSum;
    Steps0();
    Step(0, 16, 32, 0, 256); Step(1, 32, 48, 256, 512);
    Step(2, 48, 64, 512, 768); Step(3, 64, 80, 768, 1024);
    Step(4, 80, 112, 1024, 1280); Step(5, 112, 144, 1280, 1536);
    Step(6, 144, 192, 1536, 1792); Step(7, 192, 240, 1792, 2048);
  }

  lemma Steps16()
    ensures Geo(16) == 1504 && RegionSum(GeoRun(16)) == 4096
  {
    Steps8();
    hide Geo, GeoRun, RegionSum;
    Step(8, 240, 304, 2048, 2304); Step(9, 304, 384, 2304, 2560);
    Step(10, 384, 480, 2560, 2816); Step(11, 480, 608, 2816, 3072);
    Step(12, 608, 768, 3072, 3328); Step(13, 768, 960, 3328, 3584);
    Step(14, 960, 1200, 3584, 3840); Step(15, 1200, 1504, 3840, 4096);
  }

  lemma Steps24()
    ensures Geo(24) == 9088 && RegionSum(GeoRun(24)) == 6912
  {
    Steps16();
    hide Geo, GeoRun, RegionSum;
    Step(16, 1504, 1888, 4096, 4352); Step(17, 1888, 2368, 4352, 4608);
    Step(18, 2368, 2960, 4608, 4864); Step(19, 2960, 3712, 4864, 5120);
    Step(20, 3712, 4640, 5120, 5376); Step(21, 4640, 5808, 5376, 5888);
    Step(22, 5808, 7264, 5888, 6400); Step(23, 7264, 9088, 6400, 6912);
  }

  lemma Steps32()
    ensures Geo(32) == 54240 && RegionSum(GeoRun(32)) == 19200
  {
    Steps24();
    hide Geo, GeoRun, RegionSum;
    Step(24, 9088, 11360, 6912, 7680); Step(25, 11360, 14208, 7680, 8448);
    Step(26, 14208, 17760, 8448, 9472); Step(27, 17760, 22208, 9472, 10752);
    Step(28, 22208, 27760, 10752, 12288); Step(29, 27760, 34704, 12288, 14080);
    Step(30, 34704, 43392, 14080, 16384); Step(31, 43392, 54240, 16384, 19200);
  }

  lemma Steps40()
    ensures Geo(40) == 323440 && RegionSum(GeoRun(40)) == 87552
  {
    Steps32();
    hide Geo, GeoRun, RegionSum;
    Step(32, 54240, 67808, 19200, 22784); Step(33, 67808, 84768, 22784, 27136);
    Step(34, 84768, 105968, 27136, 32512); Step(35, 105968, 132464, 32512, 39168);
    Step(36, 132464, 165584, 39168, 47616); Step(37, 165584, 206992, 47616, 58112);
    Step(38, 206992, 258752, 58112, 71168); Step(39, 258752, 323440, 71168, 87552);
  }

  lemma TwoSizes(x: nat, y: nat)
    ensures RegionSum([x, y]) == Region(x) + Region(y)
  {
    SumOfMore([], x);
    SumOfMore([x], y);
    assert [] + [x] == [x] && [x] + [y] == [x, y];
  }

  lemma ExtrasSplit()
    ensures EXTRAS == [256, 512] + [1024, 2048] + ([4096, 6144] + [8192, 12288]) + [16384]
  {
  }

  lemma RegionsOfExtras()
    ensures Region(256) == Region(512) == Region(1024) == Region(2048) == Region(4096) == 256
    ensures Region(6144) == Region(8192) == 512 && Region(12288) == 768 && Region(16384) == 1024
  {
  }

  lemma ExtrasSum()
    ensures RegionSum(EXTRAS) == 4096
  {
    RegionsOfExtras();
    var a, b, c, d := [256, 512], [1024, 2048], [4096, 6144], [8192, 12288];
    TwoSizes(256, 512);
    TwoSizes(1024, 2048);
    TwoSizes(4096, 6144);
    TwoSizes(8192, 12288);
    SumOfConcat(a, b);
    SumOfConcat(c, d);
    SumOfConcat(a + b, c + d);
    SumOfMore(a + b + (c + d), 16384);
    ExtrasSplit();
    hide RegionSum, Region;
  }

  /** The runs have no value in common and none twice, so the table is a rearrangement of both. */
  lemma TableContents(table: seq<nat>)
    requires Increasing(table) && Elements(table) == Elements(EXTRAS) + Elements(GeoRun(GEO_COUNT))
    ensures multiset(table) == multiset(EXTRAS + GeoRun(GEO_COUNT)) && |table| == PROD_CLASSES
  {
    ProductionRunsDisjoint();
    GeoIncreasing(GEO_COUNT);
    var extras, run := EXTRAS, GeoRun(GEO_COUNT);
    hide Geo, GeoRun;
    ElementsOfConcat(extras, run);
    BothDistinct(extras, run);
    assert Distinct(table);
    MultisetOfDistinct(table);
    MultisetOfDistinct(extras + run);
    SizeOfDistinct(table);
    SizeOfDistinct(extras + run);
  }

  lemma BothDistinct(a: seq<nat>, b: seq<nat>)
    requires Increasing(a) && Increasing(b) && Elements(a) !! Elements(b)
    ensures Distinct(a + b)
  {
    var s := a + b;
    forall i, j | 0 <= i < j < |s|
      ensures s[i] != s[j]
    {
      if i < |a| <= j {
        assert a[i] in Elements(a) && b[j - |a|] in Elements(b);
      }
    }
  }

  lemma TableSizes(table: seq<nat>)
    requires Elements(table) == Elements(EXTRAS) + Elements(GeoRun(GEO_COUNT)) && |table| <= 49
    ensures BlockSizes(table)
  {
    ExtrasAre();
    hide Geo, GeoRun;
    forall c | 0 <= c < |table|
      ensures table[c] > 0 && table[c] % 16 == 0
    {
      assert table[c] in Elements(table);
      EntrySize(table[c]);
    }
  }

  lemma EntrySize(x: nat)
    requires x in Elements(GeoRun(GEO_COUNT)) || x in {256, 512, 1024, 2048, 4096, 6144, 8192, 12288, 16384}
    ensures x > 0 && x % 16 == 0
  {
    hide Geo;
    if x in Elements(GeoRun(GEO_COUNT)) {
      var k :| 0 <= k < GEO_COUNT && GeoRun(GEO_COUNT)[k] == x;
      GeoPositive(k);
    }
  }

  lemma ProductionSum(table: seq<nat>)
    requires multiset(table) == multiset(EXTRAS + GeoRun(GEO_COUNT))
    ensures RegionSum(table) == 91648
  {
    Steps40();
    ExtrasSum();
    hide Geo, GeoRun, RegionSum;
    SumOfConcat(EXTRAS, GeoRun(GEO_COUNT));
    SumOfSameElements(table, EXTRAS + GeoRun(GEO_COUNT));
  }

  /** The 49-class carve ends inside the segment: its regions would fit twice. */
  lemma ProductionFits(table: seq<nat>)
    requires Increasing(table) && Elements(table) == Elements(EXTRAS) + Elements(GeoRun(GEO_COUNT))
    ensures |table| == PROD_CLASSES && BlockSizes(table) && LayoutEnd(table, |table|) <= SEGMENT_SLOTS
  {
    TableContents(table);
    TableSizes(table);
    ProductionSum(table);
    hide Geo, GeoRun, RegionSum, Elements, Increasing, BlockSizes, LayoutEnd;
    LayoutBound(table, |table|);
    assert table[..|table|] == table;
  }

  /** The table is built and laid out, and neither step fails. */
  method LayoutProduction() returns (sizes: seq<nat>, layout: seq<Carve>)
    ensures |sizes| == PROD_CLASSES && Increasing(sizes)
    ensures Elements(sizes) == Elements(EXTRAS) + Elements(GeoRun(GEO_COUNT))
    ensures Fits(sizes, layout) && IsTight(layout)
  {
    ProductionRunsDisjoint();
    var ok, table := BuildClassSizes(EXTRAS, GEO_COUNT);
    sizes := table[..];
    ProductionFits(sizes);
    var fits;
    layout, fits := LayoutClasses(sizes);
  }

  /** Some block is not 16 bytes over a whole number of sub-leaves. */
  lemma SomeBlockFits(sizes: seq<nat>)
    requires Elements(sizes) == Elements(EXTRAS) + Elements(GeoRun(GEO_COUNT))
    ensures exists c :: 0 <= c < |sizes| && sizes[c] % 4096 != 16
  {
    assert EXTRAS[0] == 256 && EXTRAS[0] in Elements(EXTRAS);
    assert 256 in Elements(sizes);
    var c :| 0 <= c < |sizes| && sizes[c] == 256;
  }

  /** The whole check on the production table: the tail is below 49 sub-leaves, and at most 5% of the segment. */
  method ProductionTail(rounds: nat) returns (tail: int)
    ensures tail < PROD_CLASSES * SUBLEAF_BYTES && 100 * tail <= 5 * SEGMENT_SLOTS * SLOT_BYTES
  {
    var sizes, layout := LayoutProduction();
    SomeBlockFits(sizes);
    tail := FragmentationTail(sizes, layout, rounds);
  }
}
