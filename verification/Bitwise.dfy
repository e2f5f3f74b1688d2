/** C's bitwise operators on unsigned words, defined bit by bit. */
module Bitwise {
  import opened Words

  /** `(w >> k) & 1` */
  predicate Bit(w: nat, k: nat) {
    if k == 0 then w % 2 == 1 else Bit(w / 2, k - 1)
  }

  /** `1 << k` */
  function Shl1(k: nat): (m: nat)
    ensures m > 0
  {
    if k == 0 then 1 else 2 * Shl1(k - 1)
  }

  /** `a | b` */
  function Or(a: nat, b: nat): nat {
    if a == 0 && b == 0 then 0
    else 2 * Or(a / 2, b / 2) + if a % 2 == 1 || b % 2 == 1 then 1 else 0
  }

  /** `a & b` */
  function And(a: nat, b: nat): nat {
    if a == 0 then 0
    else 2 * And(a / 2, b / 2) + if a % 2 == 1 && b % 2 == 1 then 1 else 0
  }

  /** `a & ~b` */
  function AndNot(a: nat, b: nat): nat {
    if a == 0 then 0
    else 2 * AndNot(a / 2, b / 2) + if a % 2 == 1 && b % 2 == 0 then 1 else 0
  }

  /** `a ^ b` */
  function Xor(a: nat, b: nat): nat {
    if a == 0 && b == 0 then 0
    else 2 * Xor(a / 2, b / 2) + if a % 2 == b % 2 then 0 else 1
  }

  lemma {:induction false} ZeroBit(k: nat)
    ensures !Bit(0, k)
  {
    if k > 0 { ZeroBit(k - 1); }
  }

  lemma {:induction false} OrBit(a: nat, b: nat, k: nat)
    ensures Bit(Or(a, b), k) == (Bit(a, k) || Bit(b, k))
  {
    if a == 0 && b == 0 {
      ZeroBit(k);
    } else if k > 0 {
      OrBit(a / 2, b / 2, k - 1);
    }
  }

  lemma {:induction false} AndNotBit(a: nat, b: nat, k: nat)
    ensures Bit(AndNot(a, b), k) == (Bit(a, k) && !Bit(b, k))
  {
    if a == 0 {
      ZeroBit(k);
    } else if k > 0 {
      AndNotBit(a / 2, b / 2, k - 1);
    }
  }

  lemma {:induction false} MaskBit(i: nat, k: nat)
    ensures Bit(Shl1(i), k) == (i == k)
  {
    if i == 0 {
      if k > 0 { ZeroBit(k - 1); }
    } else if k > 0 {
      MaskBit(i - 1, k - 1);
    }
  }

  /** A word masked with one bit is nonzero exactly when it has that bit. */
  lemma {:induction false} AndMask(w: nat, k: nat)
    ensures (And(w, Shl1(k)) != 0) == Bit(w, k)
  {
    if w == 0 {
      ZeroBit(k);
    } else if k > 0 {
      AndMask(w / 2, k - 1);
    } else {
      AndZero(w / 2);
    }
  }

  lemma {:induction false} AndZero(w: nat)
    ensures And(w, 0) == 0
  {
    if w != 0 { AndZero(w / 2); }
  }

  /** The two halves of an exclusive or. */
  lemma {:induction false} XorHalves(a: nat, b: nat)
    ensures Xor(a, b) / 2 == Xor(a / 2, b / 2)
    ensures Xor(a, b) % 2 == if a % 2 == b % 2 then 0 else 1
  {
  }

  lemma {:induction false} XorZero(a: nat)
    ensures Xor(a, 0) == a && Xor(0, a) == a
  {
    if a != 0 { XorZero(a / 2); }
  }

  lemma {:induction false} XorSelf(a: nat)
    ensures Xor(a, a) == 0
  {
    if a != 0 { XorSelf(a / 2); }
  }

  lemma {:induction false} XorCommutes(a: nat, b: nat)
    ensures Xor(a, b) == Xor(b, a)
  {
    if !(a == 0 && b == 0) { XorCommutes(a / 2, b / 2); }
  }

  lemma {:induction false} XorAssoc(a: nat, b: nat, c: nat)
    ensures Xor(Xor(a, b), c) == Xor(a, Xor(b, c))
  {
    if !(a == 0 && b == 0 && c == 0) {
      XorHalves(a, b);
      XorHalves(b, c);
      XorHalves(Xor(a, b), c);
      XorHalves(a, Xor(b, c));
      XorAssoc(a / 2, b / 2, c / 2);
    }
  }

  /** Equal words are exactly those that cancel. */
  lemma XorCancels(a: nat, b: nat)
    ensures Xor(a, b) == 0 <==> a == b
  {
    if a == b {
      XorSelf(a);
    } else if Xor(a, b) == 0 {
      XorAssoc(a, b, b);
      XorSelf(b);
      XorZero(a);
      XorZero(b);
    }
  }

  lemma {:induction false} XorBit(a: nat, b: nat, k: nat)
    ensures Bit(Xor(a, b), k) == (Bit(a, k) != Bit(b, k))
  {
    XorHalves(a, b);
    if k > 0 { XorBit(a / 2, b / 2, k - 1); }
  }

  /** What changing bit k adds to a word. */
  function Change(x: nat, k: nat): int {
    if Bit(x, k) then 0 - Shl1(k) else Shl1(k)
  }

  lemma {:induction false} XorBitValue(x: nat, k: nat)
    ensures Xor(x, Shl1(k)) == x + Change(x, k)
  {
    XorHalves(x, Shl1(k));
    if k == 0 {
      XorZero(x / 2);
    } else {
      assert Shl1(k) / 2 == Shl1(k - 1) && Shl1(k) % 2 == 0;
      XorBitValue(x / 2, k - 1);
      assert Change(x, k) == 2 * Change(x / 2, k - 1);
    }
  }

  lemma XorBitAlone(x: nat, i: nat, k: nat)
    requires i != k
    ensures Bit(Xor(x, Shl1(i)), k) == Bit(x, k)
  {
    XorBit(x, Shl1(i), k);
    MaskBit(i, k);
  }

  lemma {:induction false} XorWidth(a: nat, b: nat, n: nat)
    requires a < Shl1(n) && b < Shl1(n)
    ensures Xor(a, b) < Shl1(n)
  {
    if n > 0 && !(a == 0 && b == 0) { XorWidth(a / 2, b / 2, n - 1); }
  }

  /** A word below 2^k has no bit k. */
  lemma {:induction false} SmallBit(w: nat, k: nat)
    requires w < Shl1(k)
    ensures !Bit(w, k)
  {
    if k > 0 { SmallBit(w / 2, k - 1); }
  }

  lemma BitHalf(x: nat, k: nat)
    ensures Bit(x, k + 1) == Bit(x / 2, k)
  {
  }

  lemma BitFour(x: nat, k: nat)
    ensures Bit(x, k + 4) == Bit(x / 0x10, k)
  {
    assert Bit(x, k + 4) == Bit(x / 2, k + 3) == Bit(x / 4, k + 2) == Bit(x / 8, k + 1);
  }

  /** The operators stay inside the width of their operands. */
  lemma {:induction false} OrWidth(a: nat, b: nat, n: nat)
    requires a < Shl1(n) && b < Shl1(n)
    ensures Or(a, b) < Shl1(n)
  {
    if n > 0 && !(a == 0 && b == 0) { OrWidth(a / 2, b / 2, n - 1); }
  }

  lemma {:induction false} AndNotShrinks(a: nat, b: nat)
    ensures AndNot(a, b) <= a
  {
    if a != 0 { AndNotShrinks(a / 2, b / 2); }
  }

  lemma {:induction false} MaskWidth(k: nat, n: nat)
    requires k < n
    ensures Shl1(k) < Shl1(n)
  {
    if k < n - 1 { MaskWidth(k, n - 1); }
  }

  lemma Widths()
    ensures Shl1(8) == 0x100 && Shl1(15) == 0x8000 && Shl1(16) == 0x1_0000 && Shl1(32) == 0x1_0000_0000
  {
    assert Shl1(8) == 0x100;
    assert Shl1(16) == 0x1_0000;
    assert Shl1(24) == 0x100_0000;
  }

  /** `w | 1 << k` and `w & ~(1 << k)`, as the 32-bit words they are. */
  function WordWith(w: uint32, k: nat): uint32
    requires k < 32
  {
    MaskWidth(k, 32);
    Widths();
    OrWidth(w, Shl1(k), 32);
    Or(w, Shl1(k))
  }

  function WordWithout(w: uint32, k: nat): uint32
    requires k < 32
  {
    AndNotShrinks(w, Shl1(k));
    AndNot(w, Shl1(k))
  }
}
