/** How a burst is cut into producer slices, and the thread counts that the barriers are sized by. */
module Chunks {
  import opened FreeSets

  /** `div_ceil`: how many parts of size `b` it takes to cover `a`, the last one possibly smaller. */
  function DivCeil(a: nat, b: nat): nat
    requires b > 0
    decreases a
  {
    if a == 0 then 0 else 1 + DivCeil(if a <= b then 0 else a - b, b)
  }

  /** The slice length: the burst over the requested threads, rounded up. */
  function ChunkSize(burst: nat, threads: nat): nat
    requires threads > 0
  {
    DivCeil(burst, threads)
  }

  /** The second ceiling division: how many slices of that length there will be. */
  function EffectiveThreads(burst: nat, threads: nat): (n: nat)
    requires burst > 0 && threads > 0
    ensures n >= 1
  {
    DivCeilPositive(burst, threads);
    var n := DivCeil(burst, ChunkSize(burst, threads));
    if n > 1 then n else 1
  }

  /** `chunks(k)`: consecutive slices of length `k`, the last one possibly shorter. */
  function Slices(s: seq<nat>, k: nat): seq<seq<nat>>
    requires k > 0
    decreases |s|
  {
    if s == [] then [] else if |s| <= k then [s] else [s[..k]] + Slices(s[k..], k)
  }

  function Flatten(ss: seq<seq<nat>>): seq<nat> {
    if ss == [] then [] else ss[0] + Flatten(ss[1..])
  }

  /** It is the quotient, rounded up. */
  lemma {:induction false} DivCeilBounds(a: nat, b: nat)
    requires b > 0
    ensures var q := DivCeil(a, b); q * b >= a && (q > 0 ==> (q - 1) * b < a)
    decreases a
  {
    if a > b {
      DivCeilBounds(a - b, b);
      Distribute(DivCeil(a - b, b), b);
    }
  }

  lemma Distribute(q: nat, b: nat)
    ensures (q + 1) * b == q * b + b && (q > 0 ==> (q - 1) * b == q * b - b)
  {
  }

  lemma DivCeilIsQuotient(a: nat, b: nat)
    requires b > 0
    ensures DivCeil(a, b) == (a + b - 1) / b
  {
    var q := (a + b - 1) / b;
    assert a + b - 1 == q * b + (a + b - 1) % b;
    if q > 0 {
      Distribute(q, b);
    }
    DivCeilUnique(a, b, q);
  }

  lemma DivCeilPositive(a: nat, b: nat)
    requires a > 0 && b > 0
    ensures DivCeil(a, b) > 0
  {
    DivCeilBounds(a, b);
  }

  lemma DivCeilUnique(a: nat, b: nat, q: nat)
    requires b > 0 && q * b >= a && (q > 0 ==> (q - 1) * b < a)
    ensures DivCeil(a, b) == q
  {
    var r := DivCeil(a, b);
    DivCeilBounds(a, b);
    if r < q {
      MulMonotone(r, q - 1, b);
    } else if q < r {
      MulMonotone(q, r - 1, b);
    }
  }

  lemma MulMonotone(x: nat, y: nat, b: nat)
    requires x <= y
    ensures x * b <= y * b
  {
    assert (y - x) * b >= 0;
    assert y * b == x * b + (y - x) * b;
  }

  /** There are never more slices than requested threads. */
  lemma AtMostRequested(burst: nat, threads: nat)
    requires burst > 0 && threads > 0
    ensures EffectiveThreads(burst, threads) <= threads
  {
    var chunk := ChunkSize(burst, threads);
    DivCeilPositive(burst, threads);
    DivCeilBounds(burst, threads);
    var n := DivCeil(burst, chunk);
    DivCeilBounds(burst, chunk);
    assert (n - 1) * chunk < chunk * threads;
    if n > threads {
      MulMonotone(threads, n - 1, chunk);
    }
  }

  /** The slice length is the least with which as many slices as requested threads cover the burst. */
  lemma ChunkIsLeast(burst: nat, threads: nat)
    requires burst > 0 && threads > 0
    ensures var k := ChunkSize(burst, threads); k > 0 && (k - 1) * threads < burst <= k * threads
    ensures ChunkSize(burst, threads) == (burst + threads - 1) / threads
    ensures forall k: nat :: burst <= k * threads <==> ChunkSize(burst, threads) <= k
  {
    var chunk := ChunkSize(burst, threads);
    DivCeilPositive(burst, threads);
    DivCeilBounds(burst, threads);
    DivCeilIsQuotient(burst, threads);
    forall k: nat
      ensures burst <= k * threads <==> chunk <= k
    {
      if chunk <= k {
        MulMonotone(chunk, k, threads);
      } else {
        MulMonotone(k, chunk - 1, threads);
      }
    }
  }

  /**
    * The slices fall short of the requested threads by at most `d` exactly when `d + 1` chunks less would not
    * cover the burst.
    */
  lemma ShortfallIff(burst: nat, threads: nat, d: nat)
    requires burst > 0 && d < threads
    ensures threads - EffectiveThreads(burst, threads) <= d
       <==> (threads - d - 1) * ((burst + threads - 1) / threads) < burst
  {
    var chunk := ChunkSize(burst, threads);
    ChunkIsLeast(burst, threads);
    DivCeilBounds(burst, chunk);
    DivCeilPositive(burst, chunk);
    var n, m := EffectiveThreads(burst, threads), threads - d;
    if n >= m {
      MulMonotone(m - 1, n - 1, chunk);
    } else {
      MulMonotone(n, m - 1, chunk);
    }
  }

  /** In particular: when every requested thread gets a slice. */
  lemma AllThreadsUsedIff(burst: nat, threads: nat)
    requires burst > 0 && threads > 0
    ensures EffectiveThreads(burst, threads) == threads
       <==> (threads - 1) * ((burst + threads - 1) / threads) < burst
  {
    ShortfallIff(burst, threads, 0);
    AtMostRequested(burst, threads);
  }

  /** The shortfall is one in one of the harness's own cells and none in another, and it is not bounded by one. */
  lemma Shortfalls()
    ensures EffectiveThreads(1000, 64) == 63
    ensures EffectiveThreads(10, 7) == 5
    ensures EffectiveThreads(256, 64) == 64
  {
    DivCeilUnique(256, 64, 4);
    DivCeilUnique(256, 4, 64);
    DivCeilUnique(1000, 64, 16);
    DivCeilUnique(1000, 16, 63);
    DivCeilUnique(10, 7, 2);
    DivCeilUnique(10, 2, 5);
  }

  /** The number of slices is the second ceiling division. */
  lemma {:induction false} SliceCount(s: seq<nat>, k: nat)
    requires k > 0
    ensures |Slices(s, k)| == DivCeil(|s|, k)
    decreases |s|
  {
    if |s| > k {
      SliceCount(s[k..], k);
    }
  }

  /** Slices are as many as the ceiling division says, non-empty, in order, and cover everything. */
  lemma {:induction false} SlicesCover(s: seq<nat>, k: nat)
    requires k > 0
    ensures |Slices(s, k)| == DivCeil(|s|, k)
    ensures Flatten(Slices(s, k)) == s
    ensures forall i | 0 <= i < |Slices(s, k)| :: 0 < |Slices(s, k)[i]| <= k
    decreases |s|
  {
    SliceCount(s, k);
    hide DivCeil;
    if 0 < |s| <= k {
      assert Flatten([s]) == s + Flatten([]);
    } else if |s| > k {
      SlicesCover(s[k..], k);
      var rest := Slices(s[k..], k);
      assert ([s[..k]] + rest)[1..] == rest;
      assert s[..k] + s[k..] == s;
    }
  }

  /** Slice `i` is the `i`-th stretch of length `k`; only the last may be shorter. */
  lemma {:induction false} SliceIs(s: seq<nat>, k: nat, i: nat)
    requires k > 0 && i < |Slices(s, k)|
    ensures i * k < |s| && Slices(s, k)[i] == s[i * k..if i * k + k < |s| then i * k + k else |s|]
    decreases |s|
  {
    if |s| > k && i > 0 {
      assert Slices(s, k)[i] == Slices(s[k..], k)[i - 1];
      hide Slices;
      SliceIs(s[k..], k, i - 1);
      Distribute(i - 1, k);
    }
  }

  /** Both barriers are sized by the number of slices that are spawned. */
  lemma BarrierSizesMatch(addrs: seq<nat>, threads: nat)
    requires addrs != [] && threads > 0
    ensures ChunkSize(|addrs|, threads) > 0
    ensures |Slices(addrs, ChunkSize(|addrs|, threads))| == EffectiveThreads(|addrs|, threads) <= threads
  {
    DivCeilPositive(|addrs|, threads);
    var chunk := ChunkSize(|addrs|, threads);
    DivCeilPositive(|addrs|, chunk);
    SlicesCover(addrs, chunk);
    AtMostRequested(|addrs|, threads);
  }

  lemma {:induction false} FlattenConcat(a: seq<seq<nat>>, b: seq<seq<nat>>)
    ensures Flatten(a + b) == Flatten(a) + Flatten(b)
  {
    if a == [] {
      assert a + b == b;
    } else {
      FlattenConcat(a[1..], b);
      assert (a + b)[1..] == a[1..] + b && (a + b)[0] == a[0];
      assert Flatten(a + b) == a[0] + (Flatten(a[1..]) + Flatten(b));
      assert a[0] + (Flatten(a[1..]) + Flatten(b)) == Flatten(a) + Flatten(b);
    }
  }

  lemma FlattenSplit(ss: seq<seq<nat>>, n: nat)
    requires n <= |ss|
    ensures Flatten(ss) == Flatten(ss[..n]) + Flatten(ss[n..])
  {
    hide Flatten;
    FlattenConcat(ss[..n], ss[n..]);
    assert ss[..n] + ss[n..] == ss;
  }

  lemma FlattenMore(ss: seq<seq<nat>>, n: nat)
    requires n < |ss|
    ensures Flatten(ss[..n + 1]) == Flatten(ss[..n]) + ss[n]
  {
    FlattenConcat(ss[..n], [ss[n]]);
    assert ss[..n] + [ss[n]] == ss[..n + 1];
    assert Flatten([ss[n]]) == ss[n] + Flatten([]);
  }

  lemma {:induction false} InFlatten(ss: seq<seq<nat>>, i: nat, j: nat)
    requires i < |ss| && j < |ss[i]|
    ensures ss[i][j] in Flatten(ss)
  {
    if i > 0 {
      assert ss[1..][i - 1][j] == ss[i][j];
      InFlatten(ss[1..], i - 1, j);
    }
  }

  /** Slices of a list without repeats are disjoint, and each is without repeats. */
  lemma {:induction false} SlicesDisjoint(ss: seq<seq<nat>>, i: nat, j: nat, k: nat, l: nat)
    requires Distinct(Flatten(ss)) && i < |ss| && j < |ss[i]| && k < |ss| && l < |ss[k]|
    requires i != k || j != l
    ensures ss[i][j] != ss[k][l]
    decreases |ss|
  {
    var rest := Flatten(ss[1..]);
    assert Flatten(ss) == ss[0] + rest;
    DistinctParts(ss[0], rest);
    if i > 0 && k > 0 {
      SlicesDisjoint(ss[1..], i - 1, j, k - 1, l);
    } else if i > 0 {
      InFlatten(ss[1..], i - 1, j);
    } else if k > 0 {
      InFlatten(ss[1..], k - 1, l);
    }
  }

  lemma DistinctParts(a: seq<nat>, b: seq<nat>)
    requires Distinct(a + b)
    ensures Distinct(a) && Distinct(b) && forall x | x in a :: x !in b
  {
    forall i, j | 0 <= i < j < |a|
      ensures a[i] != a[j]
    {
      assert (a + b)[i] != (a + b)[j];
    }
    forall i, j | 0 <= i < j < |b|
      ensures b[i] != b[j]
    {
      assert (a + b)[|a| + i] != (a + b)[|a| + j];
    }
    forall i, j | 0 <= i < |a| && 0 <= j < |b|
      ensures a[i] != b[j]
    {
      assert (a + b)[i] != (a + b)[|a| + j];
    }
  }
}
