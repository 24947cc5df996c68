/** 64-bit bitmap words: bits, bitwise operators, `trailing_zeros` and `count_ones`. */
module Words {
  const TWO_64: nat := 0x1_0000_0000_0000_0000

  /** An unsigned 64-bit word. */
  type Word = w: nat | w < TWO_64

  /** Bit `i` of `w`. */
  predicate Bit(w: nat, i: nat) {
    if i == 0 then w % 2 == 1 else Bit(w / 2, i - 1)
  }

  /** The set bits of a word. */
  function BitSet(w: Word): set<nat> {
    set i: nat | i < 64 && Bit(w, i)
  }

  /** `count_ones`. */
  function PopCount(w: Word): nat {
    |BitSet(w)|
  }

  predicate IsOr(w: Word, a: Word, b: Word) {
    forall i: nat | i < 64 :: Bit(w, i) <==> Bit(a, i) || Bit(b, i)
  }

  predicate IsAnd(w: Word, a: Word, b: Word) {
    forall i: nat | i < 64 :: Bit(w, i) <==> Bit(a, i) && Bit(b, i)
  }

  predicate IsAndNot(w: Word, a: Word, b: Word) {
    forall i: nat | i < 64 :: Bit(w, i) <==> Bit(a, i) && !Bit(b, i)
  }

  predicate IsMask(w: Word, i: nat) {
    forall j: nat | j < 64 :: Bit(w, j) <==> i == j
  }

  predicate IsLowest(w: Word, i: nat) {
    Bit(w, i) && forall j: nat | j < i :: !Bit(w, j)
  }

  /** `a | b`: the word with the bits of either. */
  function Or(a: Word, b: Word): Word {
    OrExists(a, b);
    var w: Word :| 0 <= w < TWO_64 && IsOr(w, a, b);
    w
  }

  /** `a & b`: the word with the common bits. */
  function And(a: Word, b: Word): Word {
    AndExists(a, b);
    var w: Word :| 0 <= w < TWO_64 && IsAnd(w, a, b);
    w
  }

  /** `a & !b`: the word with the bits that only `a` has. */
  function AndNot(a: Word, b: Word): Word {
    AndNotExists(a, b);
    var w: Word :| 0 <= w < TWO_64 && IsAndNot(w, a, b);
    w
  }

  /** `1u64 << i`: the word whose only bit is `i`. */
  function Mask(i: nat): Word
    requires i < 64
  {
    MaskExists(i);
    var w: Word :| 0 <= w < TWO_64 && IsMask(w, i);
    w
  }

  /** `w & (w - 1)`. */
  function ClearLowest(w: Word): Word
    requires w != 0
  {
    And(w, w - 1)
  }

  /** `trailing_zeros`: the index of the lowest set bit, 64 on the zero word. */
  function TrailingZeros(w: Word): nat {
    if w == 0 then 64
    else
      LowestExists(w);
      var i: nat :| 0 <= i < 64 && IsLowest(w, i);
      i
  }

  ghost function Pow2(k: nat): nat {
    if k == 0 then 1 else 2 * Pow2(k - 1)
  }

  lemma Pow64()
    ensures Pow2(64) == TWO_64
  {
    assert Pow2(8) == 0x100;
    assert Pow2(16) == 0x1_0000;
    assert Pow2(24) == 0x100_0000;
    assert Pow2(32) == 0x1_0000_0000;
    assert Pow2(40) == 0x100_0000_0000;
    assert Pow2(48) == 0x1_0000_0000_0000;
    assert Pow2(56) == 0x100_0000_0000_0000;
  }

  lemma {:induction false} BuildBits(f: nat -> bool, lo: nat, k: nat) returns (w: nat)
    ensures w < Pow2(k) && forall i: nat | i < k :: Bit(w, i) <==> f(lo + i)
    decreases k
  {
    if k == 0 {
      w := 0;
    } else {
      var high := BuildBits(f, lo + 1, k - 1);
      w := (if f(lo) then 1 else 0) + 2 * high;
      assert w / 2 == high && w % 2 == (if f(lo) then 1 else 0);
      assert Pow2(k) == 2 * Pow2(k - 1);
      hide Pow2;
      forall i: nat | i < k
        ensures Bit(w, i) <==> f(lo + i)
      {
        if i > 0 {
          assert Bit(high, i - 1) <==> f(lo + 1 + (i - 1));
        }
      }
    }
  }

  /** Every pattern of 64 bits is a word. */
  lemma WordWithBits(f: nat -> bool) returns (w: Word)
    ensures forall i: nat | i < 64 :: Bit(w, i) <==> f(i)
  {
    Pow64();
    w := BuildBits(f, 0, 64);
    assert forall i: nat | i < 64 :: Bit(w, i) <==> f(0 + i);
  }

  /** Two numbers below `2^k` with the same low `k` bits are equal. */
  lemma {:induction false} BitsDetermine(a: nat, b: nat, k: nat)
    requires a < Pow2(k) && b < Pow2(k)
    requires forall i: nat | i < k :: Bit(a, i) <==> Bit(b, i)
    ensures a == b
  {
    if k > 0 {
      assert Bit(a, 0) <==> Bit(b, 0);
      forall i: nat | i < k - 1
        ensures Bit(a / 2, i) <==> Bit(b / 2, i)
      {
        assert Bit(a, i + 1) <==> Bit(b, i + 1);
      }
      BitsDetermine(a / 2, b / 2, k - 1);
    }
  }

  /** Two words with the same bits are the same word. */
  lemma WordExt(a: Word, b: Word)
    requires forall i: nat | i < 64 :: Bit(a, i) <==> Bit(b, i)
    ensures a == b
  {
    Pow64();
    BitsDetermine(a, b, 64);
  }

  lemma OrExists(a: Word, b: Word)
    ensures exists w: Word :: IsOr(w, a, b)
    ensures forall w: Word, v: Word | IsOr(w, a, b) && IsOr(v, a, b) :: w == v
  {
    var w := WordWithBits((i: nat) => Bit(a, i) || Bit(b, i));
    assert IsOr(w, a, b);
    forall w: Word, v: Word | IsOr(w, a, b) && IsOr(v, a, b)
      ensures w == v
    {
      WordExt(w, v);
    }
  }

  lemma AndExists(a: Word, b: Word)
    ensures exists w: Word :: IsAnd(w, a, b)
    ensures forall w: Word, v: Word | IsAnd(w, a, b) && IsAnd(v, a, b) :: w == v
  {
    var w := WordWithBits((i: nat) => Bit(a, i) && Bit(b, i));
    assert IsAnd(w, a, b);
    forall w: Word, v: Word | IsAnd(w, a, b) && IsAnd(v, a, b)
      ensures w == v
    {
      WordExt(w, v);
    }
  }

  lemma AndNotExists(a: Word, b: Word)
    ensures exists w: Word :: IsAndNot(w, a, b)
    ensures forall w: Word, v: Word | IsAndNot(w, a, b) && IsAndNot(v, a, b) :: w == v
  {
    var w := WordWithBits((i: nat) => Bit(a, i) && !Bit(b, i));
    assert IsAndNot(w, a, b);
    forall w: Word, v: Word | IsAndNot(w, a, b) && IsAndNot(v, a, b)
      ensures w == v
    {
      WordExt(w, v);
    }
  }

  lemma MaskExists(i: nat)
    requires i < 64
    ensures exists w: Word :: IsMask(w, i)
    ensures forall w: Word, v: Word | IsMask(w, i) && IsMask(v, i) :: w == v
  {
    var w := WordWithBits((j: nat) => i == j);
    assert IsMask(w, i);
    forall w: Word, v: Word | IsMask(w, i) && IsMask(v, i)
      ensures w == v
    {
      WordExt(w, v);
    }
  }

  lemma {:induction false} ZeroHasNoBits(i: nat)
    ensures !Bit(0, i)
  {
    if i > 0 {
      ZeroHasNoBits(i - 1);
    }
  }

  lemma {:induction false} HasLowest(w: nat, k: nat) returns (i: nat)
    requires 0 < w < Pow2(k)
    ensures i < k && Bit(w, i) && forall j: nat | j < i :: !Bit(w, j)
  {
    if w % 2 == 1 {
      i := 0;
    } else {
      i := HasLowest(w / 2, k - 1);
      i := i + 1;
    }
  }

  lemma LowestExists(w: Word)
    requires w != 0
    ensures exists i: nat :: i < 64 && IsLowest(w, i)
  {
    Pow64();
    var i := HasLowest(w, 64);
    assert IsLowest(w, i);
  }

  /** The zero word has no bit; every other word has one. */
  lemma ZeroOrBit(w: Word)
    ensures w == 0 ==> forall i: nat | i < 64 :: !Bit(w, i)
    ensures w != 0 ==> TrailingZeros(w) < 64 && Bit(w, TrailingZeros(w))
  {
    if w == 0 {
      forall i: nat | i < 64
        ensures !Bit(w, i)
      {
        ZeroHasNoBits(i);
      }
    }
  }

  lemma {:induction false} BitOfPred(w: nat, t: nat, i: nat)
    requires w > 0 && Bit(w, t) && forall j: nat | j < t :: !Bit(w, j)
    ensures Bit(w - 1, i) <==> i < t || (i > t && Bit(w, i))
  {
    if t > 0 {
      assert !Bit(w, 0);
      assert (w - 1) / 2 == w / 2 - 1;
      forall j: nat | j < t - 1
        ensures !Bit(w / 2, j)
      {
        assert !Bit(w, j + 1);
      }
      assert w / 2 > 0 by {
        ZeroHasNoBits(t - 1);
      }
      if i > 0 {
        BitOfPred(w / 2, t - 1, i - 1);
      }
    }
  }

  /** `w & (w - 1)` drops the lowest set bit and nothing else. */
  lemma ClearLowestBit(w: Word)
    requires w != 0
    ensures forall i: nat | i < 64 :: Bit(ClearLowest(w), i) <==> Bit(w, i) && i != TrailingZeros(w)
  {
    forall i: nat | i < 64
      ensures Bit(ClearLowest(w), i) <==> Bit(w, i) && i != TrailingZeros(w)
    {
      BitOfPred(w, TrailingZeros(w), i);
    }
  }

  /** Setting bits twice is setting their union. */
  lemma OrAssociates(a: Word, b: Word, d: Word)
    ensures Or(Or(a, b), d) == Or(a, Or(b, d))
  {
    WordExt(Or(Or(a, b), d), Or(a, Or(b, d)));
  }

  lemma OrZero(b: Word)
    ensures Or(0, b) == b && Or(b, 0) == b
  {
    ZeroOrBit(0);
    assert forall i: nat | i < 64 :: !Bit(0, i);
    WordExt(Or(0, b), b);
    WordExt(Or(b, 0), b);
  }

  lemma AndNotOfZero(b: Word)
    ensures AndNot(0, b) == 0
  {
    ZeroOrBit(0);
    WordExt(AndNot(0, b), 0);
  }

  lemma OrIsZero(a: Word, b: Word)
    ensures Or(a, b) == 0 <==> a == 0 && b == 0
  {
    ZeroOrBit(a);
    ZeroOrBit(b);
    ZeroOrBit(Or(a, b));
    if a != 0 {
      assert Bit(Or(a, b), TrailingZeros(a));
    } else if b != 0 {
      assert Bit(Or(a, b), TrailingZeros(b));
    } else {
      OrZero(0);
    }
  }

  lemma MaskNonZero(i: nat)
    requires i < 64
    ensures Mask(i) != 0
  {
    assert Bit(Mask(i), i);
    ZeroHasNoBits(i);
  }
}
