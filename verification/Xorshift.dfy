/** The sweep's xorshift64* generator: each step can be undone, and distinct states stay distinct. */
module Xorshift {
  const MULTIPLIER: nat := 0x2545_F491_4F6C_DD1D
  const MODULUS: nat := 0x1_0000_0000_0000_0000

  // ---- One step of the generator ----

  /** `x ^= x >> 12; x ^= x << 25; x ^= x >> 27` */
  function Step(x: bv64): bv64 {
    R27(L25(R12(x)))
  }

  function R12(x: bv64): bv64 { x ^ (x >> 12) }
  function R24(x: bv64): bv64 { x ^ (x >> 24) }
  function R48(x: bv64): bv64 { x ^ (x >> 48) }
  function L25(x: bv64): bv64 { x ^ (x << 25) }
  function L50(x: bv64): bv64 { x ^ (x << 50) }
  function R27(x: bv64): bv64 { x ^ (x >> 27) }
  function R54(x: bv64): bv64 { x ^ (x >> 54) }

  /** The step taken back: doing a shifted xor twice doubles the shift, until nothing is left of it. */
  function Back(y: bv64): bv64 {
    R48(R24(R12(L50(L25(R54(R27(y)))))))
  }

  lemma Twice12(x: bv64)
    ensures R12(R12(x)) == R24(x)
  {
    assert R12(x ^ (x >> 12)) == R24(x);
  }

  lemma Twice24(x: bv64)
    ensures R24(R24(x)) == R48(x)
  {
    assert R24(x ^ (x >> 24)) == R48(x);
  }

  lemma Twice48(x: bv64)
    ensures R48(R48(x)) == x
  {
    assert R48(x ^ (x >> 48)) == x;
  }

  lemma Twice25(x: bv64)
    ensures L25(L25(x)) == L50(x)
  {
    assert L25(x ^ (x << 25)) == L50(x);
  }

  lemma Twice50(x: bv64)
    ensures L50(L50(x)) == x
  {
    assert L50(x ^ (x << 50)) == x;
  }

  lemma Twice27(x: bv64)
    ensures R27(R27(x)) == R54(x)
  {
    assert R27(x ^ (x >> 27)) == R54(x);
  }

  lemma Twice54(x: bv64)
    ensures R54(R54(x)) == x
  {
    assert R54(x ^ (x >> 54)) == x;
  }

  /** The step loses nothing. */
  lemma StepInverts(x: bv64)
    ensures Back(Step(x)) == x
  {
    hide R12, R24, R48, L25, L50, R27, R54;
    var a := R12(x);
    var b := L25(a);
    Twice27(b);
    Twice54(b);
    Twice25(a);
    Twice50(a);
    Twice12(x);
    Twice24(x);
    Twice48(x);
  }

  // Powers of one shifted xor commute.

  lemma Swap12(x: bv64)
    ensures R12(R24(x)) == R24(R12(x)) && R12(R48(x)) == R48(R12(x))
  {
    hide R12, R24, R48;
    Twice12(x);
    Twice12(R12(x));
    Twice12(R24(x));
    Twice12(R12(R24(x)));
    Twice24(x);
    Twice24(R12(x));
  }

  lemma Swap25(x: bv64)
    ensures L25(L50(x)) == L50(L25(x))
  {
    hide L25, L50;
    Twice25(x);
    Twice25(L25(x));
  }

  lemma Swap27(x: bv64)
    ensures R27(R54(x)) == R54(R27(x))
  {
    hide R27, R54;
    Twice27(x);
    Twice27(R27(x));
  }

  /** Every state is the step of one. */
  lemma StepReaches(y: bv64)
    ensures Step(Back(y)) == y
  {
    hide R12, R24, R48, L25, L50, R27, R54;
    var b := R54(R27(y));
    var a := L50(L25(b));
    var z := R24(R12(a));
    Swap12(z);
    Swap12(R12(a));
    Twice12(a);
    Twice24(a);
    Twice48(a);
    Swap25(L25(b));
    Twice25(b);
    Twice50(b);
    Swap27(R27(y));
    Twice27(y);
    Twice54(y);
  }

  /** A non-zero state stays non-zero. */
  lemma StepNonZero(x: bv64)
    ensures Step(x) == 0 <==> x == 0
  {
    StepInverts(x);
    BackOfZero();
  }

  lemma BackOfZero()
    ensures Back(0) == 0 && Step(0) == 0
  {
  }

  function Iterate(x: bv64, n: nat): bv64
    decreases n
  {
    if n == 0 then x else Iterate(Step(x), n - 1)
  }

  lemma {:induction false} NeverZero(x: bv64, n: nat)
    requires x != 0
    ensures Iterate(x, n) != 0
    decreases n
  {
    hide Step;
    if n > 0 {
      StepNonZero(x);
      NeverZero(Step(x), n - 1);
    }
  }

  /** Two streams that ever meet were always the same stream. */
  lemma {:induction false} StreamsNeverMerge(x: bv64, y: bv64, n: nat)
    requires Iterate(x, n) == Iterate(y, n)
    ensures x == y
    decreases n
  {
    hide Step, Back;
    if n > 0 {
      StreamsNeverMerge(Step(x), Step(y), n - 1);
      StepInverts(x);
      StepInverts(y);
    }
  }

  // ---- What is handed out ----

  function Wrap(a: nat): nat {
    (a * MULTIPLIER) % MODULUS
  }

  /** The state times the multiplier, wrapped to 64 bits. */
  function Output(x: bv64): nat {
    Wrap(x as nat)
  }

  /** The inverse of the multiplier modulo 2^64. */
  const INVERSE: nat := 0x59071d96d81ecd35

  /** Different states hand out different numbers: the wrapped product tells all 64-bit words apart. */
  lemma WrapInjective(a: nat, b: nat)
    requires a < MODULUS && b < MODULUS && Wrap(a) == Wrap(b)
    ensures a == b
  {
    MulBack(a);
    MulBack(b);
  }

  /** What was handed out tells the state it came from. */
  lemma OutputTellsState(x: bv64)
    ensures Output(x) < MODULUS && Output(x) * INVERSE % MODULUS == x as nat
  {
    MulBack(x as nat);
  }

  lemma OutputZeroIff(x: bv64)
    ensures Output(x) == 0 <==> x == 0
  {
    hide Output, INVERSE, MODULUS;
    OutputOfZero();
    OutputTellsState(x);
    ZeroTellsZero(Output(x), x as nat);
    BvZero(x);
  }

  lemma ZeroTellsZero(r: nat, a: nat)
    requires r * INVERSE % MODULUS == a
    ensures r == 0 ==> a == 0
  {
  }

  lemma OutputOfZero()
    ensures Output(0) == 0
  {
  }

  lemma BvZero(x: bv64)
    ensures x as nat == 0 ==> x == 0
  {
  }

  /** Every 64-bit number is a state, read bit by bit from the top. */
  lemma {:induction false} StateOf(a: nat) returns (x: bv64)
    requires a < MODULUS
    ensures x as nat == a
  {
    x := 0;
    if a > 0 {
      var y := StateOf(a / 2);
      BelowHalf(y);
      AppendZero(y);
      AppendOne(y);
      x := if a % 2 == 0 then y << 1 else (y << 1) | 1;
    }
  }

  lemma BelowHalf(x: bv64)
    requires x as nat < 0x8000_0000_0000_0000
    ensures x < 0x8000_0000_0000_0000
  {
  }

  lemma AppendZero(x: bv64)
    requires x < 0x8000_0000_0000_0000
    ensures (x << 1) as nat == 2 * (x as nat)
  {
  }

  lemma AppendOne(x: bv64)
    requires x < 0x8000_0000_0000_0000
    ensures ((x << 1) | 1) as nat == 2 * (x as nat) + 1
  {
  }

  /** Every 64-bit number is handed out in one state. */
  lemma OutputReaches(y: nat) returns (x: bv64)
    requires y < MODULUS
    ensures Output(x) == y
  {
    MulForth(y);
    hide MULTIPLIER, INVERSE;
    x := StateOf(y * INVERSE % MODULUS);
  }

  /** The generator's first answer for seed 1, and one from a state on which all three shifts work. */
  lemma NamedAnswers()
    ensures Output(Step(1)) == 5180492295206395165
    ensures Output(Step(0x9E37_79B9_7F4A_7C15)) == 973819730272012410
  {
    assert Step(1) == 33554433;
    assert Step(0x9E37_79B9_7F4A_7C15) == 285734347287933762;
    WrapOf(33554433, 5180492295206395165);
    WrapOf(285734347287933762, 973819730272012410);
  }

  lemma WrapOf(a: nat, r: nat)
    requires r < MODULUS && (a * MULTIPLIER - r) % MODULUS == 0
    ensures Wrap(a) == r
  {
    ModOfMultiple((a * MULTIPLIER - r) / MODULUS, r);
  }

  lemma MulForth(a: nat)
    requires a < MODULUS
    ensures (((a * INVERSE) % MODULUS) * MULTIPLIER) % MODULUS == a
  {
    var q, r := (a * INVERSE) / MODULUS, (a * INVERSE) % MODULUS;
    var k := 934034299265436267;
    assert MULTIPLIER * INVERSE == k * MODULUS + 1;
    assert a * INVERSE == q * MODULUS + r;
    assert a * INVERSE * MULTIPLIER == a * (MULTIPLIER * INVERSE);
    assert r * MULTIPLIER == (a * k - q * MULTIPLIER) * MODULUS + a;
    ModOfMultiple(a * k - q * MULTIPLIER, a);
  }

  lemma MulBack(a: nat)
    requires a < MODULUS
    ensures (((a * MULTIPLIER) % MODULUS) * INVERSE) % MODULUS == a
  {
    var q, r := (a * MULTIPLIER) / MODULUS, (a * MULTIPLIER) % MODULUS;
    var k := 934034299265436267;
    assert MULTIPLIER * INVERSE == k * MODULUS + 1;
    assert a * MULTIPLIER == q * MODULUS + r;
    assert a * MULTIPLIER * INVERSE == a * (MULTIPLIER * INVERSE);
    assert r * INVERSE == (a * k - q * INVERSE) * MODULUS + a;
    ModOfMultiple(a * k - q * INVERSE, a);
  }

  lemma ModOfMultiple(m: int, a: nat)
    requires a < MODULUS
    ensures (m * MODULUS + a) % MODULUS == a
  {
  }

  /** The seed's lowest bit is lost, and nothing else. */
  lemma SeedsAgreeIff(a: bv64, b: bv64)
    ensures (a | 1) == (b | 1) <==> (a >> 1) == (b >> 1)
  {
  }
}
