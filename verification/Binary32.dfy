/** Landmarks of binary32 as the numbers they are: what ties the units of Float32.Value to powers of two. */
module Binary32 {
  import opened Words
  import opened Float32

  lemma {:induction false} DoubledIs(n: nat, k: nat)
    ensures Doubled(n, k) == n * Doubled(1, k)
  {
    if k > 0 {
      DoubledIs(n, k - 1);
      Twice(n, Doubled(1, k - 1));
    }
  }

  lemma Twice(n: nat, m: nat)
    ensures 2 * (n * m) == n * (2 * m)
  {
  }

  lemma {:induction false} DoubledSum(j: nat, k: nat)
    ensures Doubled(1, j + k) == Doubled(1, j) * Doubled(1, k)
  {
    if j > 0 {
      DoubledSum(j - 1, k);
      assert Doubled(1, j + k) == 2 * Doubled(1, j - 1 + k);
      Twice(2, Doubled(1, j - 1) * Doubled(1, k));
      Regroup(Doubled(1, j - 1), Doubled(1, k));
    }
  }

  lemma Regroup(a: nat, b: nat)
    ensures 2 * (a * b) == (2 * a) * b
  {
  }

  /** 2^j times 2^k. */
  lemma Product(j: nat, x: nat, k: nat, y: nat, z: nat)
    requires Doubled(1, j) == x && Doubled(1, k) == y && x * y == z
    ensures Doubled(1, j + k) == z
  {
    DoubledSum(j, k);
  }

  lemma Powers()
    ensures Doubled(1, 32) == 4294967296 && Doubled(1, 64) == 18446744073709551616
    ensures Doubled(1, 128) == 340282366920938463463374607431768211456
  {
    assert Doubled(1, 8) == 256;
    Product(8, 256, 8, 256, 65536);
    Product(16, 65536, 16, 65536, 4294967296);
    Product(32, 4294967296, 32, 4294967296, 18446744073709551616);
    Product(64, 18446744073709551616, 64, 18446744073709551616, 340282366920938463463374607431768211456);
  }

  lemma Power126()
    ensures Doubled(1, 126) == 85070591730234615865843651857942052864
  {
    Powers();
    assert Doubled(1, 10) == 1024;
    Product(10, 1024, 10, 1024, 1048576);
    Product(64, 18446744073709551616, 32, 4294967296, 79228162514264337593543950336);
    assert Doubled(1, 20) == 1048576;
    Product(20, 1048576, 10, 1024, 1073741824);
    Product(96, 79228162514264337593543950336, 30, 1073741824, 85070591730234615865843651857942052864);
  }

  lemma Power253()
    ensures Doubled(1, 253) == 14474011154664524427946373126085988481658748083205070504932198000989141204992
  {
    Powers();
    assert Doubled(1, 10) == 1024;
    Product(10, 1024, 10, 1024, 1048576);
    Product(20, 1048576, 10, 1024, 1073741824);
    Product(30, 1073741824, 30, 1073741824, 1152921504606846976);
    Product(128, 340282366920938463463374607431768211456, 64, 18446744073709551616,
            6277101735386680763835789423207666416102355444464034512896);
    Product(192, 6277101735386680763835789423207666416102355444464034512896, 60, 1152921504606846976,
            7237005577332262213973186563042994240829374041602535252466099000494570602496);
    assert Doubled(1, 253) == 2 * Doubled(1, 252);
  }

  lemma OneIs()
    ensures Value(0x3F80_0000) == 713623846352979940529142984724747568191373312
  {
    assert 0x3F80_0000 / 0x80_0000 == 127 && 0x3F80_0000 % 0x80_0000 == 0;
    DoubledIs(0x80_0000, 126);
    Power126();
  }

  lemma LargestIs()
    ensures Value(MAX_FINITE)
         == 340282346638528859811704183484516925440 * 713623846352979940529142984724747568191373312
  {
    assert MAX_FINITE / 0x80_0000 == 254 && MAX_FINITE % 0x80_0000 == 0x7F_FFFF;
    DoubledIs(0xFF_FFFF, 253);
    Power253();
  }

  /** The patterns of 1, of the largest binary32 and of the smallest normal one stand for these numbers. */
  lemma Landmarks()
    ensures RealOf(0) == 0.0 && RealOf(0x3F80_0000) == 1.0
    ensures RealOf(MAX_FINITE) == FLT_MAX && RealOf(MIN_NORMAL) == FLT_MIN
  {
    OneIs();
    LargestIs();
  }

  /** Numbers are in the order of their units, and negation is the sign bit. */
  lemma RealOrder(a: uint32, b: uint32)
    ensures RealOf(a) <= RealOf(b) <==> Value(a) <= Value(b)
    ensures RealOf(a) == RealOf(b) <==> Value(a) == Value(b)
  {
  }

  lemma RealNegated(m: uint32)
    requires m < SIGN
    ensures RealOf(SIGN + m) == -RealOf(m)
  {
  }

  /** A finite pattern that is no subnormal: zero, or between the smallest normal number and the largest. */
  lemma NormalWithin(b: uint32)
    requires IsFinite(b) && Magnitude(b) >= MIN_NORMAL
    ensures FLT_MIN <= RealOf(b) <= FLT_MAX || -FLT_MAX <= RealOf(b) <= -FLT_MIN
  {
    var m := Magnitude(b);
    Landmarks();
    ScaledOrder(MIN_NORMAL, m);
    ScaledOrder(m, MIN_NORMAL);
    ScaledOrder(MAX_FINITE, m);
    ScaledOrder(m, MAX_FINITE);
    RealOrder(MIN_NORMAL, m);
    RealOrder(m, MAX_FINITE);
    if b >= SIGN { RealNegated(m); }
  }
}
