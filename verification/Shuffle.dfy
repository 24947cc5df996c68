/** The Fisher-Yates shuffle: what it does on values, what it can reach, and the generator that drives it. */
module Shuffle {
  import opened FreeSets
  import opened Xorshift

  function Swap(v: seq<nat>, i: nat, j: nat): (r: seq<nat>)
    requires i < |v| && j < |v|
    ensures |r| == |v|
  {
    v[i := v[j]][j := v[i]]
  }

  /** The draws for the positions `|d|, .., 1`: each names a position at or below the current one. */
  predicate Draws(d: seq<nat>)
    decreases |d|
  {
    d != [] ==> d[0] <= |d| && Draws(d[1..])
  }

  /** The shuffle with the given draws. */
  function Deal(v: seq<nat>, d: seq<nat>): (r: seq<nat>)
    requires Draws(d) && (|d| < |v| || d == [])
    ensures |r| == |v|
    decreases |d|
  {
    if d == [] then v else Deal(Swap(v, |d|, d[0]), d[1..])
  }

  lemma SwapKeepsContents(v: seq<nat>, i: nat, j: nat)
    requires i < |v| && j < |v|
    ensures multiset(Swap(v, i, j)) == multiset(v)
  {
  }

  /** A shuffle permutes. */
  lemma {:induction false} DealPermutes(v: seq<nat>, d: seq<nat>)
    requires Draws(d) && (|d| < |v| || d == [])
    ensures multiset(Deal(v, d)) == multiset(v)
    decreases |d|
  {
    if d != [] {
      SwapKeepsContents(v, |d|, d[0]);
      DealPermutes(Swap(v, |d|, d[0]), d[1..]);
    }
  }

  /** The positions above those still to be drawn for are settled. */
  lemma {:induction false} Settled(v: seq<nat>, d: seq<nat>, k: nat)
    requires Draws(d) && |d| < |v| && |d| < k < |v|
    ensures Deal(v, d)[k] == v[k]
    decreases |d|
  {
    if d != [] {
      Settled(Swap(v, |d|, d[0]), d[1..], k);
    }
  }

  /** Different draws give different orders. */
  lemma {:induction false} DealInjective(v: seq<nat>, d: seq<nat>, e: seq<nat>)
    requires Distinct(v) && Draws(d) && Draws(e) && |d| == |e| && |d| < |v|
    requires Deal(v, d) == Deal(v, e)
    ensures d == e
    decreases |d|
  {
    if d != [] {
      var n := |d|;
      Settled(Swap(v, n, d[0]), d[1..], n);
      Settled(Swap(v, n, e[0]), e[1..], n);
      assert v[d[0]] == v[e[0]];
      assert d[0] == e[0];
      DealInjective(Swap(v, n, d[0]), d[1..], e[1..]);
      assert d == [d[0]] + d[1..] && e == [e[0]] + e[1..];
    }
  }

  /** Every order of the first positions is dealt by some draws. */
  lemma {:induction false} DealReaches(v: seq<nat>, w: seq<nat>, n: nat) returns (d: seq<nat>)
    requires multiset(v) == multiset(w) && n < |v| == |w| && v[n + 1..] == w[n + 1..]
    ensures |d| == n && Draws(d) && Deal(v, d) == w
    decreases n
  {
    hide Swap, Deal, Draws;
    SameHead(v, w, n);
    if n == 0 {
      d := [];
      DealOfNone(v);
      assert v == v[..1] + v[1..] && w == w[..1] + w[1..];
    } else {
      var j :| 0 <= j <= n && v[j] == w[n];
      SwapKeepsContents(v, n, j);
      SwapSettles(v, w, n, j);
      var rest := DealReaches(Swap(v, n, j), w, n - 1);
      d := [j] + rest;
      DealOfMore(v, j, rest);
    }
  }

  lemma DealOfNone(v: seq<nat>)
    ensures Draws([]) && Deal(v, []) == v
  {
  }

  lemma DealOfMore(v: seq<nat>, j: nat, rest: seq<nat>)
    requires Draws(rest) && |rest| + 1 < |v| && j <= |rest| + 1
    ensures Draws([j] + rest) && Deal(v, [j] + rest) == Deal(Swap(v, |rest| + 1, j), rest)
  {
    assert ([j] + rest)[1..] == rest;
  }

  lemma SwapSettles(v: seq<nat>, w: seq<nat>, n: nat, j: nat)
    requires j <= n < |v| == |w| && v[n + 1..] == w[n + 1..] && v[j] == w[n]
    ensures Swap(v, n, j)[n..] == w[n..]
  {
    var u := Swap(v, n, j);
    assert u[n + 1..] == v[n + 1..];
    assert u[n..] == [u[n]] + u[n + 1..] && w[n..] == [w[n]] + w[n + 1..];
  }

  lemma SameHead(v: seq<nat>, w: seq<nat>, n: nat)
    requires multiset(v) == multiset(w) && n < |v| == |w| && v[n + 1..] == w[n + 1..]
    ensures multiset(v[..n + 1]) == multiset(w[..n + 1])
    ensures n == 0 ==> v[..1] == w[..1]
    ensures exists j :: 0 <= j <= n && v[j] == w[n]
  {
    assert v == v[..n + 1] + v[n + 1..] && w == w[..n + 1] + w[n + 1..];
    assert multiset(v) == multiset(v[..n + 1]) + multiset(v[n + 1..]);
    assert multiset(w) == multiset(w[..n + 1]) + multiset(w[n + 1..]);
    var a, b := multiset(v[..n + 1]), multiset(w[..n + 1]);
    forall x
      ensures a[x] == b[x]
    {
      assert multiset(v)[x] == a[x] + multiset(v[n + 1..])[x];
      assert multiset(w)[x] == b[x] + multiset(w[n + 1..])[x];
    }
    assert a == b;
    assert w[..n + 1][n] in b;
    assert w[n] in v[..n + 1];
  }

  /** On a list without repeats, each order is dealt by exactly one choice of draws. */
  lemma EachOrderOnce(v: seq<nat>, w: seq<nat>) returns (d: seq<nat>)
    requires Distinct(v) && multiset(v) == multiset(w) && v != []
    ensures |d| == |v| - 1 && Draws(d) && Deal(v, d) == w
    ensures forall e | |e| == |v| - 1 && Draws(e) && Deal(v, e) == w :: e == d
  {
    assert |v| == |multiset(v)| == |w|;
    d := DealReaches(v, w, |v| - 1);
    forall e | |e| == |v| - 1 && Draws(e) && Deal(v, e) == w
      ensures e == d
    {
      DealInjective(v, d, e);
    }
  }

  // ---- Driven by the generator ----

  /** The draws that the generator makes from state `x` for positions `n, .., 1`. */
  function DrawsFrom(x: bv64, n: nat): (d: seq<nat>)
    ensures |d| == n && Draws(d)
    decreases n
  {
    if n == 0 then [] else
      var d := [Output(Step(x)) % (n + 1)] + DrawsFrom(Step(x), n - 1);
      assert d[1..] == DrawsFrom(Step(x), n - 1);
      d
  }

  /** The draw for position `n - k` comes from the `k + 1`-st number and reaches up to the position itself. */
  lemma {:induction false} DrawAt(x: bv64, n: nat, k: nat)
    requires k < n
    ensures DrawsFrom(x, n)[k] == Output(Iterate(x, k + 1)) % (n - k + 1)
    decreases n
  {
    hide Step, Output;
    assert Iterate(Step(x), 0) == Step(x);
    if k > 0 {
      DrawAt(Step(x), n - 1, k - 1);
    }
  }

  /**
    * Each position at or below the current one is drawn in some state, the current one included; only when
    * there are as many positions as numbers does the first of them need the state zero, which is none.
    */
  lemma EveryDrawComesUpIff(n: nat, j: nat)
    requires 0 < n < MODULUS && j <= n
    ensures (exists x: bv64 :: x != 0 && DrawsFrom(x, n)[0] == j) <==> j > 0 || n + 1 < MODULUS
  {
    if j > 0 || n + 1 < MODULUS {
      var x := StateFor(if j > 0 then j else n + 1);
      DrawAt(x, n, 0);
      FirstDraw(x, n, j);
    } else if x: bv64 :| x != 0 && DrawsFrom(x, n)[0] == j {
      OnlyZeroGivesZero(x);
      FirstDraw(x, n, Output(Step(x)));
      assert false;
    }
  }

  lemma FirstDraw(x: bv64, n: nat, j: nat)
    requires n > 0
    ensures DrawsFrom(x, n)[0] == Output(Step(x)) % (n + 1)
    ensures Output(Step(x)) == j <= n ==> DrawsFrom(x, n)[0] == j
    ensures Output(Step(x)) == n + 1 ==> DrawsFrom(x, n)[0] == 0
  {
    hide Step, Output;
    Remainders(n, j);
  }

  lemma Remainders(n: nat, j: nat)
    ensures (n + 1) % (n + 1) == 0 && (j <= n ==> j % (n + 1) == j)
  {
  }

  /** A state, not zero, whose next number is the given one. */
  lemma StateFor(y: nat) returns (x: bv64)
    requires 0 < y < MODULUS
    ensures x != 0 && Output(Step(x)) == y
  {
    var z := OutputReaches(y);
    x := Back(z);
    StepReaches(z);
    hide Step, Back;
    StepNonZero(x);
    OutputZeroIff(Step(x));
  }

  lemma OnlyZeroGivesZero(x: bv64)
    requires x != 0
    ensures 0 < Output(Step(x)) < MODULUS
  {
    StepNonZero(x);
    OutputZeroIff(Step(x));
    OutputTellsState(Step(x));
  }

  function Shuffled(v: seq<nat>, x: bv64): (r: seq<nat>)
    ensures |r| == |v|
  {
    Deal(v, DrawsFrom(x, if v == [] then 0 else |v| - 1))
  }

  class Xorshift64 {
    var state: bv64

    predicate Valid()
      reads this
    {
      state != 0
    }

    /** Setting the lowest bit keeps the state from being zero. */
    constructor (seed: bv64)
      ensures state == seed | 1 && Valid()
    {
      state := seed | 1;
      new;
      OddIsNonZero(seed);
    }

    method NextU64() returns (r: nat)
      requires Valid()
      modifies this
      ensures state == Step(old(state)) && r == Output(state) && Valid()
    {
      StepNonZero(state);
      var x := state;
      hide R12, L25, R27;
      x := R12(x);
      x := L25(x);
      x := R27(x);
      state := x;
      r := Output(x);
    }

    /** Shuffles in place. */
    method Shuffle(v: array<nat>)
      requires Valid()
      modifies this, v
      ensures v[..] == Shuffled(old(v[..]), old(state)) && Valid()
      ensures state == Iterate(old(state), if v.Length == 0 then 0 else v.Length - 1)
    {
      hide Step, Output, Swap;
      var i := if v.Length == 0 then 0 else v.Length - 1;
      while i > 0
        invariant 0 <= i && (i < v.Length || i == 0) && Valid()
        invariant Deal(v[..], DrawsFrom(state, i)) == Shuffled(old(v[..]), old(state))
        invariant Iterate(state, i) == Iterate(old(state), if v.Length == 0 then 0 else v.Length - 1)
      {
        ghost var x := state;
        ghost var was := v[..];
        ghost var d := DrawsFrom(x, i);
        var r := NextU64();
        var j := r % (i + 1);
        assert d[0] == j && d[1..] == DrawsFrom(state, i - 1);
        v[i], v[j] := v[j], v[i];
        SwapInPlace(was, v[..], i, j);
        i := i - 1;
      }
    }
  }

  lemma OddIsNonZero(x: bv64)
    ensures x | 1 != 0
  {
  }

  lemma SwapInPlace(was: seq<nat>, now: seq<nat>, i: nat, j: nat)
    requires i < |was| && j < |was| && now == was[i := was[j]][j := was[i]]
    ensures now == Swap(was, i, j)
  {
  }
}
