/** binary32 values as their 32-bit patterns, compared in IEEE 754 order. */
module Float32 {
  import opened Words

  const SIGN: uint32 := 0x8000_0000
  const INFINITY: uint32 := 0x7F80_0000

  /** The pattern without its sign bit. */
  function Magnitude(x: uint32): uint32 {
    if x < SIGN then x else x - SIGN
  }

  predicate IsNaN(x: uint32) {
    Magnitude(x) > INFINITY
  }

  predicate IsInf(x: uint32) {
    Magnitude(x) == INFINITY
  }

  predicate IsFinite(x: uint32) {
    Magnitude(x) < INFINITY
  }

  /** Sign-magnitude order: the pattern itself when positive, its negation when negative;
      both zeros fall on 0. */
  function Key(x: uint32): int {
    if x < SIGN then x else -(Magnitude(x) as int)
  }

  /** `a < b` on floats: false as soon as one side is NaN. */
  predicate Less(a: uint32, b: uint32) {
    !IsNaN(a) && !IsNaN(b) && Key(a) < Key(b)
  }

  // ----- reference: the number a pattern stands for, in units of 2^-149 -----

  /** n * 2^k */
  function Doubled(n: nat, k: nat): nat {
    if k == 0 then n else 2 * Doubled(n, k - 1)
  }

  /** Significand times a power of two: a subnormal when the exponent field is 0. */
  function Scaled(m: uint32): nat
    requires m < SIGN
  {
    var exponent, fraction := m / 0x80_0000, m % 0x80_0000;
    if exponent == 0 then fraction else Doubled(0x80_0000 + fraction, exponent - 1)
  }

  function Value(x: uint32): int {
    if x < SIGN then Scaled(x) else -(Scaled(Magnitude(x)) as int)
  }

  lemma {:induction false} DoubledMonotone(a: nat, b: nat, k: nat)
    requires a < b
    ensures Doubled(a, k) < Doubled(b, k)
  {
    if k > 0 { DoubledMonotone(a, b, k - 1); }
  }

  lemma {:induction false} DoubledNext(n: nat, k: nat)
    ensures Doubled(2 * n, k) == Doubled(n, k + 1)
  {
    if k > 0 { DoubledNext(n, k - 1); }
  }

  lemma ScaledStep(m: uint32)
    requires m + 1 < SIGN
    ensures Scaled(m) < Scaled(m + 1)
  {
    var exponent, fraction := m / 0x80_0000, m % 0x80_0000;
    if fraction + 1 < 0x80_0000 {
      assert (m + 1) / 0x80_0000 == exponent && (m + 1) % 0x80_0000 == fraction + 1;
      if exponent > 0 { DoubledMonotone(0x80_0000 + fraction, 0x80_0000 + fraction + 1, exponent - 1); }
    } else {
      assert (m + 1) / 0x80_0000 == exponent + 1 && (m + 1) % 0x80_0000 == 0;
      if exponent > 0 {
        DoubledMonotone(0x80_0000 + fraction, 0x100_0000, exponent - 1);
        DoubledNext(0x80_0000, exponent - 1);
      }
    }
  }

  lemma {:induction false} ScaledMonotone(a: uint32, b: uint32)
    requires a < b < SIGN
    ensures Scaled(a) < Scaled(b)
    decreases b - a
  {
    ScaledStep(a);
    if a + 1 < b { ScaledMonotone(a + 1, b); }
  }

  lemma ScaledOrder(a: uint32, b: uint32)
    requires a < SIGN && b < SIGN
    ensures Scaled(a) < Scaled(b) <==> a < b
    ensures Scaled(a) == 0 <==> a == 0
  {
    if a < b { ScaledMonotone(a, b); }
    if b < a { ScaledMonotone(b, a); }
    if 0 < a { ScaledMonotone(0, a); }
  }

  /** Putting the signs back on two magnitudes keeps the order. */
  lemma SignOrder(a: uint32, b: uint32, m: nat, n: nat)
    requires m < n <==> Magnitude(a) < Magnitude(b)
    requires n < m <==> Magnitude(b) < Magnitude(a)
    requires m == 0 <==> Magnitude(a) == 0
    requires n == 0 <==> Magnitude(b) == 0
    ensures Key(a) < Key(b) <==>
              (if a < SIGN then m as int else -(m as int)) < (if b < SIGN then n as int else -(n as int))
  {
  }

  /** The core's pattern comparison is the order of the numbers the patterns stand for. */
  lemma LessIsNumericOrder(a: uint32, b: uint32)
    ensures Less(a, b) <==> !IsNaN(a) && !IsNaN(b) && Value(a) < Value(b)
  {
    ScaledOrder(Magnitude(a), Magnitude(b));
    ScaledOrder(Magnitude(b), Magnitude(a));
    SignOrder(a, b, Scaled(Magnitude(a)), Scaled(Magnitude(b)));
  }

  /** So is the order of the keys. */
  lemma KeyIsNumericOrder(a: uint32, b: uint32)
    requires !IsNaN(a) && !IsNaN(b)
    ensures Key(a) <= Key(b) <==> Value(a) <= Value(b)
  {
    LessIsNumericOrder(b, a);
  }

  // ----- rounding -----

  const MAX_FINITE: uint32 := 0x7F7F_FFFF

  /** The largest binary32, (2^24 - 1) * 2^104, and the smallest normal one, 2^-126. */
  const FLT_MAX: real := 340282346638528859811704183484516925440.0
  const FLT_MIN: real := 1.0 / 85070591730234615865843651857942052864.0

  /** Rounding to binary32; infinite where the number is too large. */
  type Rounding = real -> uint32

  /** The pattern of FLT_MIN. */
  const MIN_NORMAL: uint32 := 0x80_0000

  /** What is known of it: it gives no NaN, keeps the order, and leaves zero, the smallest normal and the
      largest numbers alone. */
  ghost predicate Rounds(round: Rounding) {
    && round(0.0) == 0
    && (forall x :: !IsNaN(round(x)))
    && (forall x, y :: x <= y ==> Key(round(x)) <= Key(round(y)))
    && round(FLT_MIN) == MIN_NORMAL && round(-FLT_MIN) == SIGN + MIN_NORMAL
    && round(FLT_MAX) == MAX_FINITE && round(-FLT_MAX) == SIGN + MAX_FINITE
  }

  /** What binary32 can hold rounds to a finite number; what rounds to less than the largest is smaller. */
  lemma RoundsWithin(round: Rounding, x: real)
    requires Rounds(round)
    ensures -FLT_MAX <= x <= FLT_MAX ==> IsFinite(round(x))
    ensures Magnitude(round(x)) < MAX_FINITE ==> -FLT_MAX < x < FLT_MAX
  {
    assert x <= FLT_MAX || FLT_MAX <= x;
    assert x <= -FLT_MAX || -FLT_MAX <= x;
  }

  /** A normal number does not become zero. */
  lemma RoundsAway(round: Rounding, x: real)
    requires Rounds(round) && (x <= -FLT_MIN || FLT_MIN <= x)
    ensures Magnitude(round(x)) >= MIN_NORMAL
  {
  }

  lemma ZeroValue(x: uint32)
    ensures Value(x) == 0 <==> Magnitude(x) == 0
  {
    ScaledOrder(0, Magnitude(x));
  }

  /** The number a pattern stands for. */
  function RealOf(bits: uint32): real {
    Value(bits) as real / 713623846352979940529142984724747568191373312.0
  }
}
