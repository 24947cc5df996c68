/** One same-thread cell of the size sweep: allocate, order, free. */
module SweepCell {
  import opened FreeSets
  import opened Shuffle

  datatype FreeOrder = Fifo | Lifo | Random(seed: bv64)

  /** An allocator that answers as it likes: a block that is not live, or nothing. It logs its answers and frees. */
  class AllocCore {
    var live: set<nat>
    var answers: seq<Option<nat>>
    var freed: seq<nat>

    method Alloc() returns (p: Option<nat>)
      modifies this
      ensures p.None? ==> live == old(live)
      ensures p.Some? ==> p.value !in old(live) && live == old(live) + {p.value}
      ensures answers == old(answers) + [p] && freed == old(freed)
    {
      if * {
        p := None;
      } else {
        SomeUnused(live);
        var block: nat :| block !in live;
        live := live + {block};
        p := Some(block);
      }
      answers := answers + [p];
    }

    method Dealloc(p: nat)
      requires p in live
      modifies this
      ensures live == old(live) - {p} && freed == old(freed) + [p] && answers == old(answers)
    {
      live := live - {p};
      freed := freed + [p];
    }
  }

  lemma SomeUnused(s: set<nat>)
    ensures exists x: nat :: x !in s
  {
    var x := Above(s);
    assert x !in s;
  }

  function Upto(n: nat): seq<nat> {
    seq(n, i => i)
  }

  /** The order in which the blocks `0, .., n - 1` are freed. */
  function Order(order: FreeOrder, n: nat): (r: seq<nat>)
    ensures |r| == n
  {
    match order
    case Fifo => Upto(n)
    case Lifo => seq(n, i requires 0 <= i < n => n - 1 - i)
    case Random(seed) => Shuffled(Upto(n), seed | 1)
  }

  predicate IsPermutation(r: seq<nat>, n: nat) {
    |r| == n && Distinct(r) && forall i | 0 <= i < n :: r[i] < n
  }

  /** Whatever the order, each block's index comes up exactly once. */
  lemma OrderIsPermutation(order: FreeOrder, n: nat)
    ensures multiset(Order(order, n)) == multiset(Upto(n)) && IsPermutation(Order(order, n), n)
  {
    match order
    case Fifo =>
    case Lifo => DescendingContents(n);
    case Random(seed) => ShuffledContents(Upto(n), seed | 1);
    SameContents(Upto(n), Order(order, n));
  }

  lemma ShuffledContents(v: seq<nat>, x: bv64)
    ensures multiset(Shuffled(v, x)) == multiset(v)
  {
    DealPermutes(v, DrawsFrom(x, if v == [] then 0 else |v| - 1));
  }

  lemma {:induction false} CountOf(s: seq<nat>, x: nat)
    ensures Distinct(s) ==> multiset(s)[x] <= 1
    ensures (forall k | 0 <= k < |s| :: multiset(s)[s[k]] == 1) ==> Distinct(s)
  {
    if s != [] {
      var n := |s| - 1;
      assert s == s[..n] + [s[n]];
      CountOf(s[..n], x);
      forall i, j | 0 <= i < j < |s| && s[i] == s[j]
        ensures multiset(s)[s[j]] >= 2
      {
        assert s == s[..j] + s[j..];
        assert s[..j][i] == s[i] && s[j..][0] == s[j];
        assert s[i] in multiset(s[..j]) && s[j] in multiset(s[j..]);
      }
    }
  }

  /** A rearrangement of a list without repeats has none either, and holds the same elements. */
  lemma SameContents(a: seq<nat>, b: seq<nat>)
    requires multiset(a) == multiset(b) && Distinct(a)
    ensures Distinct(b) && |a| == |b| && forall k | 0 <= k < |b| :: b[k] in a
  {
    assert |a| == |multiset(a)| && |b| == |multiset(b)|;
    forall k | 0 <= k < |b|
      ensures b[k] in a && multiset(b)[b[k]] == 1
    {
      assert b[k] in multiset(b);
      CountOf(a, b[k]);
    }
    CountOf(b, 0);
  }

  lemma {:induction false} DescendingContents(n: nat)
    ensures multiset(seq(n, i requires 0 <= i < n => n - 1 - i)) == multiset(Upto(n))
  {
    if n > 0 {
      DescendingContents(n - 1);
      assert Upto(n) == Upto(n - 1) + [n - 1];
      assert seq(n, i requires 0 <= i < n => n - 1 - i)
        == [n - 1] + seq(n - 1, i requires 0 <= i < n - 1 => n - 1 - 1 - i);
    }
  }

  /** The blocks in the order of the indices. */
  function Picked(ptrs: seq<nat>, idx: seq<nat>): (r: seq<nat>)
    requires forall i | 0 <= i < |idx| :: idx[i] < |ptrs|
    ensures |r| == |idx|
  {
    seq(|idx|, i requires 0 <= i < |idx| => ptrs[idx[i]])
  }

  /** FIFO: the blocks go in the order in which they came. */
  lemma FifoPicks(ptrs: seq<nat>)
    ensures Picked(ptrs, Order(Fifo, |ptrs|)) == ptrs
  {
  }

  /** LIFO: the last block goes first. */
  lemma LifoPicks(ptrs: seq<nat>)
    ensures forall i | 0 <= i < |ptrs| :: Order(Lifo, |ptrs|)[i] == |ptrs| - 1 - i
    ensures forall i | 0 <= i < |ptrs| :: Picked(ptrs, Order(Lifo, |ptrs|))[i] == ptrs[|ptrs| - 1 - i]
  {
  }

  /** Random: shuffling the indices is shuffling the blocks. */
  lemma RandomPicks(ptrs: seq<nat>, seed: bv64)
    requires IsPermutation(Order(Random(seed), |ptrs|), |ptrs|)
    ensures Picked(ptrs, Order(Random(seed), |ptrs|)) == Shuffled(ptrs, seed | 1)
  {
    hide DrawsFrom, Deal, Draws, Distinct;
    var v, n := Upto(|ptrs|), if ptrs == [] then 0 else |ptrs| - 1;
    PickedDeal(ptrs, v, DrawsFrom(seed | 1, n));
    assert Picked(ptrs, v) == ptrs;
  }

  lemma {:induction false} PickedDeal(ptrs: seq<nat>, v: seq<nat>, d: seq<nat>)
    requires Draws(d) && (|d| < |v| || d == []) && forall i | 0 <= i < |v| :: v[i] < |ptrs|
    ensures forall i | 0 <= i < |v| :: Deal(v, d)[i] < |ptrs|
    ensures Picked(ptrs, Deal(v, d)) == Deal(Picked(ptrs, v), d)
    decreases |d|
  {
    if d != [] {
      PickedDeal(ptrs, Swap(v, |d|, d[0]), d[1..]);
      assert Picked(ptrs, Swap(v, |d|, d[0])) == Swap(Picked(ptrs, v), |d|, d[0]);
    }
  }

  /** Freeing by a permutation frees each block once. */
  lemma {:induction false} PickedContents(ptrs: seq<nat>, idx: seq<nat>)
    requires IsPermutation(idx, |ptrs|)
    requires Distinct(ptrs)
    ensures multiset(Picked(ptrs, idx)) == multiset(ptrs)
  {
    var r := Picked(ptrs, idx);
    forall i, j | 0 <= i < j < |r|
      ensures r[i] != r[j]
    {
    }
    assert Distinct(r);
    SizeOfDistinct(r);
    SizeOfDistinct(ptrs);
    assert Elements(r) <= Elements(ptrs);
    SubsetOfSameSize(Elements(r), Elements(ptrs));
    forall x
      ensures multiset(r)[x] == multiset(ptrs)[x]
    {
      CountOf(r, x);
      CountOf(ptrs, x);
      assert x in r <==> x in Elements(r);
      assert x in ptrs <==> x in Elements(ptrs);
      assert x in multiset(r) <==> x in r;
      assert x in multiset(ptrs) <==> x in ptrs;
    }
  }

  /** The blocks as the allocator answered them, and the refusal that stopped the asking. */
  function Answered(ptrs: seq<nat>, oomAt: Option<nat>): seq<Option<nat>> {
    seq(|ptrs|, i requires 0 <= i < |ptrs| => Some(ptrs[i])) + if oomAt.None? then [] else [None]
  }

  /** Allocates up to `n` blocks, stopping at the first refusal. */
  method Allocate(core: AllocCore, n: nat) returns (oomAt: Option<nat>, ptrs: seq<nat>)
    modifies core
    ensures oomAt == (if |ptrs| < n then Some(|ptrs|) else None) && |ptrs| <= n
    ensures Distinct(ptrs) && forall p | p in ptrs :: p !in old(core.live)
    ensures core.live == old(core.live) + Elements(ptrs) && core.freed == old(core.freed)
    ensures core.answers == old(core.answers) + Answered(ptrs, oomAt)
  {
    ptrs := [];
    oomAt := None;
    var i := 0;
    while i < n && oomAt.None?
      invariant i <= n && |ptrs| == i - (if oomAt.None? then 0 else 1)
      invariant oomAt == None || oomAt == Some(|ptrs|)
      invariant Distinct(ptrs) && forall p | p in ptrs :: p !in old(core.live)
      invariant core.live == old(core.live) + Elements(ptrs)
      invariant core.freed == old(core.freed)
      invariant core.answers == old(core.answers) + Answered(ptrs, oomAt)
    {
      var p := core.Alloc();
      if p.None? {
        oomAt := Some(i);
      } else {
        assert Answered(ptrs + [p.value], None) == Answered(ptrs, None) + [p];
        assert p.value !in Elements(ptrs);
        assert Elements(ptrs + [p.value]) == Elements(ptrs) + {p.value};
        ptrs := ptrs + [p.value];
      }
      i := i + 1;
    }
  }

  /** The indices `0, .., n - 1`, put in order in place. */
  method FreeIndices(order: FreeOrder, n: nat) returns (idx: array<nat>)
    ensures fresh(idx) && idx[..] == Order(order, n)
  {
    idx := new nat[n](k => k);
    assert idx[..] == Upto(n);
    match order {
      case Fifo =>
      case Lifo =>
        forall k | 0 <= k < n {
          idx[k] := idx[n - 1 - k];
        }
      case Random(seed) =>
        var rng := new Xorshift64(seed);
        rng.Shuffle(idx);
    }
  }

  /** Frees the blocks in the order of the indices. */
  method FreeAll(core: AllocCore, ptrs: seq<nat>, idx: array<nat>)
    requires Distinct(ptrs) && IsPermutation(idx[..], |ptrs|) && Elements(ptrs) <= core.live
    modifies core
    ensures core.live == old(core.live) - Elements(ptrs)
    ensures core.freed == old(core.freed) + Picked(ptrs, idx[..]) && core.answers == old(core.answers)
  {
    ghost var picked := Picked(ptrs, idx[..]);
    AllPicked(ptrs, idx[..]);
    var k := 0;
    while k < idx.Length
      invariant k <= idx.Length
      invariant core.freed == old(core.freed) + picked[..k]
      invariant core.live == old(core.live) - Elements(picked[..k])
      invariant idx[..] == old(idx[..]) && core.answers == old(core.answers)
    {
      var p := ptrs[idx[k]];
      assert p == picked[k] && p in Elements(ptrs) && p !in picked[..k];
      core.Dealloc(p);
      assert picked[..k + 1] == picked[..k] + [p];
      k := k + 1;
    }
    assert picked[..k] == picked;
  }

  /**
   * Allocates until `n` blocks or the first refusal, and frees those it got: in the order they came, last
   * first, or as a generator started from the seed deals them. `payload` is the size of what was live at the peak.
   */
  method RunSameThreadCell(core: AllocCore, size: nat, n: nat, order: FreeOrder)
    returns (oomAt: Option<nat>, ptrs: seq<nat>, payload: nat)
    modifies core
    ensures oomAt == (if |ptrs| < n then Some(|ptrs|) else None) && |ptrs| <= n
    ensures Distinct(ptrs) && forall p | p in ptrs :: p !in old(core.live)
    ensures core.answers == old(core.answers) + Answered(ptrs, oomAt)
    ensures IsPermutation(Order(order, |ptrs|), |ptrs|)
    ensures core.freed == old(core.freed) + Picked(ptrs, Order(order, |ptrs|))
    ensures order.Fifo? ==> core.freed == old(core.freed) + ptrs
    ensures |core.freed| == |old(core.freed)| + |ptrs|
    ensures order.Lifo? ==>
      forall i | 0 <= i < |ptrs| :: core.freed[|old(core.freed)|..][i] == ptrs[|ptrs| - 1 - i]
    ensures order.Random? ==> core.freed == old(core.freed) + Shuffled(ptrs, order.seed | 1)
    ensures core.live == old(core.live)
    ensures payload == size * |ptrs|
  {
    oomAt, ptrs := Allocate(core, n);
    var idx := FreeIndices(order, |ptrs|);
    OrderIsPermutation(order, |ptrs|);
    match order {
      case Fifo => FifoPicks(ptrs);
      case Lifo => LifoPicks(ptrs);
      case Random(seed) => RandomPicks(ptrs, seed);
    }
    hide Order, Picked, Shuffled, IsPermutation, Answered;
    FreeAll(core, ptrs, idx);
    payload := size * |ptrs|;
  }

  lemma AllPicked(ptrs: seq<nat>, idx: seq<nat>)
    requires IsPermutation(idx, |ptrs|) && Distinct(ptrs)
    ensures Distinct(Picked(ptrs, idx)) && Elements(Picked(ptrs, idx)) == Elements(ptrs)
  {
    PickedContents(ptrs, idx);
    SameContents(ptrs, Picked(ptrs, idx));
    forall x
      ensures x in ptrs <==> x in Picked(ptrs, idx)
    {
      assert x in ptrs <==> x in multiset(ptrs);
      assert x in Picked(ptrs, idx) <==> x in multiset(Picked(ptrs, idx));
    }
  }

  /** Each block that was allocated is freed exactly once, whatever the order and wherever memory ran out. */
  lemma FreedExactlyOnce(ptrs: seq<nat>, order: FreeOrder, x: nat)
    requires Distinct(ptrs)
    ensures IsPermutation(Order(order, |ptrs|), |ptrs|)
    ensures multiset(Picked(ptrs, Order(order, |ptrs|)))[x] == if x in ptrs then 1 else 0
  {
    OrderIsPermutation(order, |ptrs|);
    PickedContents(ptrs, Order(order, |ptrs|));
    CountOf(ptrs, x);
    assert x in ptrs <==> x in multiset(ptrs);
  }
}
