/** The abstract free sets: one set of slot numbers for each size class. */
module FreeSets {
  datatype Option<+T> = None | Some(value: T)

  /** The free slots of each class. */
  type Classes = seq<set<nat>>

  /** The smallest element. */
  ghost function Min(s: set<nat>): (m: nat)
    requires s != {}
    ensures m in s && forall x | x in s :: m <= x
  {
    assert exists m :: m in s && forall x | x in s :: m <= x by { var _ := MinExists(s); }
    var m :| m in s && forall x | x in s :: m <= x;
    m
  }

  lemma {:induction false} MinExists(s: set<nat>) returns (m: nat)
    requires s != {}
    ensures m in s && forall x | x in s :: m <= x
  {
    var y :| y in s;
    m := y;
    if s != {y} {
      var rest := MinExists(s - {y});
      m := if rest < y then rest else y;
      forall x | x in s
        ensures m <= x
      {
        assert x == y || x in s - {y};
      }
    }
  }

  lemma MinIs(s: set<nat>, m: nat)
    requires m in s && forall x | x in s :: m <= x
    ensures Min(s) == m
  {
  }

  /** The elements of a list of offsets. */
  function Elements(offs: seq<nat>): set<nat> {
    set x | x in offs
  }

  /** The `n` smallest elements in increasing order, or all of them when there are fewer. */
  ghost function Smallest(s: set<nat>, n: nat): seq<nat>
    decreases n
  {
    if n == 0 || s == {} then [] else [Min(s)] + Smallest(s - {Min(s)}, n - 1)
  }

  /** Sorted, of the right length, drawn from `s`, and below everything of `s` left out. */
  ghost predicate AreSmallest(r: seq<nat>, s: set<nat>, n: nat) {
    && |r| == (if n < |s| then n else |s|)
    && (forall i, j | 0 <= i < j < |r| :: r[i] < r[j])
    && (forall i | 0 <= i < |r| :: r[i] in s)
    && (forall i, y | 0 <= i < |r| && y in s && y !in r :: r[i] < y)
  }

  lemma {:induction false} SmallestAreSmallest(s: set<nat>, n: nat)
    ensures AreSmallest(Smallest(s, n), s, n)
    decreases n
  {
    if n != 0 && s != {} {
      SmallestAreSmallest(s - {Min(s)}, n - 1);
      SmallestCons(s, Min(s), Smallest(s - {Min(s)}, n - 1), n);
    }
  }

  lemma SmallestCons(s: set<nat>, m: nat, rest: seq<nat>, n: nat)
    requires n > 0 && m in s && AreSmallest(rest, s - {m}, n - 1)
    requires forall y | y in s :: m <= y
    ensures AreSmallest([m] + rest, s, n)
  {
    var r := [m] + rest;
    forall i | 0 <= i < |r|
      ensures r[i] in s && (i > 0 ==> r[i] == rest[i - 1] && r[i] in s - {m})
    {
    }
    forall i, y | 0 <= i < |r| && y in s && y !in r
      ensures r[i] < y
    {
      assert y != r[0] && forall z | z in rest :: z in r;
    }
    forall i, j | 0 <= i < j < |r|
      ensures r[i] < r[j]
    {
    }
  }

  /** The first element and the rest of `Smallest`, as one step of a drain sees them. */
  lemma ElementsOfCons(x: nat, rest: seq<nat>)
    ensures Elements([x] + rest) == {x} + Elements(rest)
  {
  }

  lemma ElementsOfConcat(a: seq<nat>, b: seq<nat>)
    ensures Elements(a + b) == Elements(a) + Elements(b)
  {
  }

  /** Asking for at least as many as there are is asking for all of them. */
  lemma {:induction false} SmallestOfAll(s: set<nat>, n: nat)
    requires |s| <= n
    ensures Smallest(s, n) == Smallest(s, |s|) && Elements(Smallest(s, n)) == s
    decreases n
  {
    if n != 0 && s != {} {
      var m := Min(s);
      hide Min, Elements;
      assert |s - {m}| == |s| - 1;
      SmallestOfAll(s - {m}, n - 1);
      ElementsOfCons(m, Smallest(s - {m}, n - 1));
    } else {
      assert Elements([]) == {};
    }
  }

  predicate Distinct(s: seq<nat>) {
    forall i, j | 0 <= i < j < |s| :: s[i] != s[j]
  }

  lemma {:induction false} SizeOfSubset(a: set<nat>, b: set<nat>)
    requires a <= b
    ensures |a| <= |b|
  {
    if a != {} {
      var x :| x in a;
      SizeOfSubset(a - {x}, b - {x});
    }
  }

  lemma {:induction false} SizeOfDistinct(s: seq<nat>)
    requires Distinct(s)
    ensures |Elements(s)| == |s|
  {
    if s != [] {
      var n := |s| - 1;
      SizeOfDistinct(s[..n]);
      assert Elements(s) == Elements(s[..n]) + {s[n]};
      assert s[n] !in Elements(s[..n]);
    }
  }

  /** There is always a number above all those of a set. */
  lemma {:induction false} Above(s: set<nat>) returns (x: nat)
    ensures forall b | b in s :: b < x
  {
    if s == {} {
      x := 0;
    } else {
      var b :| b in s;
      var y := Above(s - {b});
      x := if y > b then y else b + 1;
      forall a | a in s
        ensures a < x
      {
        assert a == b || a in s - {b};
      }
    }
  }

  lemma SubsetOfSameSize(a: set<nat>, b: set<nat>)
    requires a <= b && |a| == |b|
    ensures a == b
  {
    if x :| x in b && x !in a {
      assert a <= b - {x};
      SizeOfSubset(a, b - {x});
    }
  }

  lemma {:induction false} MultisetOfDistinct(s: seq<nat>)
    requires Distinct(s)
    ensures multiset(s) == multiset(Elements(s))
  {
    if s != [] {
      var n := |s| - 1;
      MultisetOfDistinct(s[..n]);
      assert s == s[..n] + [s[n]];
      assert Elements(s) == Elements(s[..n]) + {s[n]};
      assert s[n] !in Elements(s[..n]);
    }
  }
}
