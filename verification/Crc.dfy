/** CRC-16/MODBUS (MODBUS over Serial Line V1.02, section 6.2.2): the byte loop of regmb_crc16, the same
    register fed one bit at a time, and the transmission errors no valid frame can hide. */
module Crc {
  import opened Words
  import opened Bitwise

  // ----- the register -----

  /** A shift of the register, with the polynomial p. */
  function Shifted(c: nat, p: nat): nat {
    if c % 2 == 1 then Xor(c / 2, p) else c / 2
  }

  const POLYNOMIAL: nat := 0xA001

  /** One shift of the inner loop. */
  function Step(c: nat): nat {
    Shifted(c, POLYNOMIAL)
  }

  function Steps(c: nat, n: nat): nat
    decreases n
  {
    if n == 0 then c else Steps(Step(c), n - 1)
  }

  // ----- bits, least significant first: the order on the wire -----

  function BitsOf(x: nat, n: nat): (bits: seq<bool>)
    ensures |bits| == n
  {
    if n == 0 then [] else [x % 2 == 1] + BitsOf(x / 2, n - 1)
  }

  function Bits(data: seq<uint8>): (bits: seq<bool>)
    ensures |bits| == 8 * |data|
  {
    if data == [] then [] else BitsOf(data[0], 8) + Bits(data[1..])
  }

  // ----- the CRC of a byte string, bit by bit -----

  /** The register after one more bit arrived. */
  function Shift(c: nat, bit: bool): nat {
    Step(Xor(c, if bit then 1 else 0))
  }

  function Feed(c: nat, bits: seq<bool>): nat
    decreases |bits|
  {
    if bits == [] then c else Feed(Shift(c, bits[0]), bits[1..])
  }

  function Crc16(data: seq<uint8>): nat {
    Feed(0xFFFF, Bits(data))
  }

  /** regmb_crc16 */
  method Compute(data: seq<uint8>) returns (crc: uint16)
    ensures crc == Crc16(data)
  {
    crc := 0xFFFF;
    for i := 0 to |data|
      invariant crc == Crc16(data[..i])
    {
      AppendByte(data, i);
      crc := AddByte(crc, data[i]);
    }
    assert data[..|data|] == data;
  }

  /** One turn of it: a byte, shifted through. */
  method AddByte(before: uint16, b: uint8) returns (crc: uint16)
    ensures crc == Steps(Xor(before, b), 8)
  {
    XorIn16(before, b);
    crc := Xor(before, b);
    for k := 0 to 8
      invariant Steps(crc, 8 - k) == Steps(Xor(before, b), 8)
    {
      XorIn16(crc / 2, POLYNOMIAL);
      if crc % 2 == 1 { crc := Xor(crc / 2, POLYNOMIAL); } else { crc := crc / 2; }
    }
  }

  lemma AppendByte(data: seq<uint8>, i: nat)
    requires i < |data|
    ensures Steps(Xor(Crc16(data[..i]), data[i]), 8) == Crc16(data[..i + 1])
  {
    assert data[..i + 1] == data[..i] + [data[i]];
    FeedByte(0xFFFF, data[..i], data[i]);
  }

  lemma FeedByte(c: nat, data: seq<uint8>, b: uint8)
    ensures Feed(c, Bits(data + [b])) == Steps(Xor(Feed(c, Bits(data)), b), 8)
  {
    Widths();
    BitsConcat(data, [b]);
    OneByte(b);
    FeedConcat(c, Bits(data), BitsOf(b, 8));
    FeedWord(Feed(c, Bits(data)), b, 8);
  }

  lemma OneByte(b: uint8)
    ensures Bits([b]) == BitsOf(b, 8)
  {
    assert [b][1..] == [];
  }

  lemma XorIn16(a: uint16, b: uint16)
    ensures Xor(a, b) < 0x1_0000
  {
    Widths();
    XorWidth(a, b, 16);
  }

  // ----- algebra of the shift: linear, a bijection, keeps parity -----

  lemma ShiftedXor(a: nat, b: nat, p: nat)
    ensures Shifted(Xor(a, b), p) == Xor(Shifted(a, p), Shifted(b, p))
  {
    var x, y := a / 2, b / 2;
    XorHalves(a, b);
    XorAssoc(x, y, p);
    XorAssoc(x, p, y);
    XorCommutes(y, p);
    XorAssoc(Xor(x, p), y, p);
    XorAssoc(Xor(x, y), p, p);
    XorSelf(p);
    XorZero(Xor(x, y));
  }

  lemma StepXor(a: nat, b: nat)
    ensures Step(Xor(a, b)) == Xor(Step(a), Step(b))
  {
    ShiftedXor(a, b, POLYNOMIAL);
  }

  /** The low bit decides, the others move down. */
  lemma ShiftedParts(w: nat, p: nat)
    ensures Shifted(w, p) == Xor(Shifted(w % 2, p), w / 2)
  {
    XorZero(p);
    XorZero(w / 2);
    XorCommutes(p, w / 2);
  }

  lemma StepWidth(c: nat)
    requires c < 0x1_0000
    ensures Step(c) < 0x1_0000
  {
    XorIn16(c / 2, POLYNOMIAL);
  }

  lemma PolynomialTopBit()
    ensures Bit(POLYNOMIAL, 15)
  {
    assert Bit(0xA001 / 0x100, 7);
  }

  lemma StepOfZero(c: nat)
    requires c < 0x1_0000
    ensures Step(c) == 0 <==> c == 0
  {
    if c % 2 == 1 {
      Widths();
      SmallBit(c / 2, 15);
      PolynomialTopBit();
      XorBit(c / 2, POLYNOMIAL, 15);
      ZeroBit(15);
    }
  }

  lemma {:induction false} StepsOfZero(c: nat, n: nat)
    requires c < 0x1_0000
    ensures Steps(c, n) == 0 <==> c == 0
    decreases n
  {
    if n > 0 {
      StepOfZero(c);
      StepWidth(c);
      StepsOfZero(Step(c), n - 1);
    }
  }

  lemma ShiftLinear(a: nat, b: nat, x: bool, y: bool)
    ensures Shift(Xor(a, b), x != y) == Xor(Shift(a, x), Shift(b, y))
  {
    var p, q := if x then 1 else 0, if y then 1 else 0;
    StepXor(Xor(a, p), Xor(b, q));
    XorAssoc(a, p, Xor(b, q));
    XorAssoc(p, b, q);
    XorCommutes(p, b);
    XorAssoc(b, p, q);
    XorAssoc(a, b, Xor(p, q));
    assert Xor(p, q) == if x != y then 1 else 0 by {
      XorZero(p);
      XorZero(q);
      XorSelf(p);
    }
  }

  /** The positions where two bit strings differ. */
  function Difference(x: seq<bool>, y: seq<bool>): (r: seq<bool>)
    requires |x| == |y|
    ensures |r| == |x|
  {
    seq(|x|, k requires 0 <= k < |x| => x[k] != y[k])
  }

  /** The register is linear in its start value and its input together. */
  lemma {:induction false} FeedLinear(a: nat, b: nat, x: seq<bool>, y: seq<bool>)
    requires |x| == |y|
    ensures Feed(Xor(a, b), Difference(x, y)) == Xor(Feed(a, x), Feed(b, y))
    decreases |x|
  {
    if x != [] {
      ShiftLinear(a, b, x[0], y[0]);
      FeedLinear(Shift(a, x[0]), Shift(b, y[0]), x[1..], y[1..]);
      assert Difference(x, y)[1..] == Difference(x[1..], y[1..]);
    }
  }

  lemma {:induction false} FeedConcat(c: nat, x: seq<bool>, y: seq<bool>)
    ensures Feed(c, x + y) == Feed(Feed(c, x), y)
    decreases |x|
  {
    if x == [] {
      assert x + y == y;
    } else {
      assert (x + y)[1..] == x[1..] + y;
      FeedConcat(Shift(c, x[0]), x[1..], y);
    }
  }

  lemma {:induction false} BitsConcat(a: seq<uint8>, b: seq<uint8>)
    ensures Bits(a + b) == Bits(a) + Bits(b)
  {
    if a == [] {
      assert a + b == b;
    } else {
      assert (a + b)[1..] == a[1..] + b;
      BitsConcat(a[1..], b);
    }
  }

  /** A whole word at once is its bits one at a time: the byte loop and the bit-serial register agree. */
  lemma {:induction false} FeedWord(c: nat, w: nat, n: nat)
    requires w < Shl1(n)
    ensures Feed(c, BitsOf(w, n)) == Steps(Xor(c, w), n)
    decreases n
  {
    if n == 0 {
      XorZero(c);
    } else {
      var bit := w % 2 == 1;
      TakeFirst(c, w);
      assert BitsOf(w, n)[1..] == BitsOf(w / 2, n - 1);
      FeedWord(Shift(c, bit), w / 2, n - 1);
    }
  }

  lemma TakeFirst(c: nat, w: nat)
    ensures Step(Xor(c, w)) == Xor(Shift(c, w % 2 == 1), w / 2)
  {
    StepXor(c, w);
    ShiftedParts(w, POLYNOMIAL);
    StepXor(c, w % 2);
    XorAssoc(Step(c), Step(w % 2), w / 2);
  }

  /** A word from its low m bits and the rest. */
  function Join(low: nat, high: nat, m: nat): nat {
    if m == 0 then high else low % 2 + 2 * Join(low / 2, high, m - 1)
  }

  lemma {:induction false} BitsOfJoin(low: nat, high: nat, m: nat, n: nat)
    ensures BitsOf(Join(low, high, m), m + n) == BitsOf(low, m) + BitsOf(high, n)
  {
    if m > 0 { BitsOfJoin(low / 2, high, m - 1, n); }
  }

  lemma {:induction false} JoinValue(low: nat, high: nat, m: nat)
    requires low < Shl1(m)
    ensures Join(low, high, m) == low + Shl1(m) * high
  {
    if m > 0 {
      JoinValue(low / 2, high, m - 1);
      Twice(Shl1(m - 1), high);
    }
  }

  lemma Twice(a: nat, b: nat)
    ensures 2 * (a * b) == (2 * a) * b
  {
  }

  // ----- valid frames -----

  /** The frame ends in the CRC of what precedes it, low byte first. */
  predicate Valid(frame: seq<uint8>) {
    |frame| >= 2
    && var crc := Crc16(frame[..|frame| - 2]);
    frame[|frame| - 2] == crc % 0x100 && frame[|frame| - 1] == crc / 0x100
  }

  lemma {:induction false} FeedWidth(c: nat, bits: seq<bool>)
    requires c < 0x1_0000
    ensures Feed(c, bits) < 0x1_0000
    decreases |bits|
  {
    if bits != [] {
      XorIn16(c, if bits[0] then 1 else 0);
      StepWidth(Xor(c, if bits[0] then 1 else 0));
      FeedWidth(Shift(c, bits[0]), bits[1..]);
    }
  }

  lemma BitsOfFrame(data: seq<uint8>, low: uint8, high: uint8)
    ensures Bits(data + [low, high]) == Bits(data) + BitsOf(low + 0x100 * high, 16)
  {
    BitsConcat(data, [low, high]);
    assert [low, high][1..] == [high];
    assert Bits([high]) == BitsOf(high, 8);
    assert Bits([low, high]) == BitsOf(low, 8) + BitsOf(high, 8);
    BitsOfJoin(low, high, 8, 8);
    Widths();
    JoinValue(low, high, 8);
  }

  lemma FeedOwnCrc(crc: uint16, sent: uint16)
    ensures Feed(crc, BitsOf(sent, 16)) == 0 <==> crc == sent
  {
    Widths();
    FeedWord(crc, sent, 16);
    XorIn16(crc, sent);
    StepsOfZero(Xor(crc, sent), 16);
    XorCancels(crc, sent);
  }

  lemma FrameResidue(data: seq<uint8>, low: uint8, high: uint8)
    ensures Feed(0xFFFF, Bits(data + [low, high])) == 0 <==> Crc16(data) == low + 0x100 * high
  {
    var sent := BitsOf(low + 0x100 * high, 16);
    BitsOfFrame(data, low, high);
    FeedConcat(0xFFFF, Bits(data), sent);
    FeedWidth(0xFFFF, Bits(data));
    FeedOwnCrc(Crc16(data), low + 0x100 * high);
  }

  /** Running a whole frame, CRC included, through the register leaves 0 exactly when it is valid. */
  lemma ValidIffResidueZero(frame: seq<uint8>)
    requires |frame| >= 2
    ensures Valid(frame) <==> Feed(0xFFFF, Bits(frame)) == 0
  {
    var data, low, high := frame[..|frame| - 2], frame[|frame| - 2], frame[|frame| - 1];
    LastTwo(frame);
    FrameResidue(data, low, high);
    var crc := CrcOf(data);
    HighAndLow(crc, low, high);
  }

  lemma LastTwo(frame: seq<uint8>)
    requires |frame| >= 2
    ensures frame == frame[..|frame| - 2] + [frame[|frame| - 2], frame[|frame| - 1]]
  {
  }

  /** The CRC as the 16-bit number it is. */
  lemma CrcOf(data: seq<uint8>) returns (crc: uint16)
    ensures crc == Crc16(data)
  {
    FeedWidth(0xFFFF, Bits(data));
    crc := Crc16(data);
  }

  lemma HighAndLow(crc: uint16, low: uint8, high: uint8)
    ensures low == crc % 0x100 && high == crc / 0x100 <==> crc == low + 0x100 * high
  {
  }

  /** The bit errors that turn frame f into frame g. */
  function Errors(f: seq<uint8>, g: seq<uint8>): (e: seq<bool>)
    requires |f| == |g|
    ensures |e| == 8 * |f|
  {
    Difference(Bits(f), Bits(g))
  }

  /** A corrupted copy of a valid frame passes the check exactly when the error pattern by itself leaves
      the register, started at 0, at 0. */
  lemma ErrorsSlipThroughIff(f: seq<uint8>, g: seq<uint8>)
    requires |f| == |g| && Valid(f)
    ensures Valid(g) <==> Feed(0, Errors(f, g)) == 0
  {
    ValidIffResidueZero(f);
    ValidIffResidueZero(g);
    FeedLinear(0xFFFF, 0xFFFF, Bits(f), Bits(g));
    XorSelf(0xFFFF);
    XorZero(Feed(0xFFFF, Bits(g)));
  }

  // ----- an odd number of errors -----

  predicate OddOnes(w: nat) {
    if w == 0 then false else (w % 2 == 1) != OddOnes(w / 2)
  }

  predicate OddCount(bits: seq<bool>) {
    if bits == [] then false else bits[0] != OddCount(bits[1..])
  }

  lemma {:induction false} OddOnesXor(a: nat, b: nat)
    ensures OddOnes(Xor(a, b)) == (OddOnes(a) != OddOnes(b))
  {
    if !(a == 0 && b == 0) {
      XorHalves(a, b);
      OddOnesXor(a / 2, b / 2);
    }
  }

  /** The polynomial has an odd number of ones below its top: a shift keeps the parity. */
  lemma StepParity(c: nat)
    ensures OddOnes(Step(c)) == OddOnes(c)
  {
    OddOnesXor(c / 2, 0xA001);
    assert OddOnes(0xA001) by {
      assert !OddOnes(0x5) && !OddOnes(0x28) && !OddOnes(0x140) && !OddOnes(0xA00) && !OddOnes(0x5000);
    }
  }

  lemma {:induction false} FeedParity(c: nat, bits: seq<bool>)
    ensures OddOnes(Feed(c, bits)) == (OddOnes(c) != OddCount(bits))
    decreases |bits|
  {
    if bits != [] {
      var bit := if bits[0] then 1 else 0;
      StepParity(Xor(c, bit));
      OddOnesXor(c, bit);
      FeedParity(Shift(c, bits[0]), bits[1..]);
    }
  }

  /** Any odd number of flipped bits, wherever they are, is noticed. */
  lemma OddErrorsDetected(f: seq<uint8>, g: seq<uint8>)
    requires |f| == |g| && Valid(f) && OddCount(Errors(f, g))
    ensures !Valid(g)
  {
    ErrorsSlipThroughIff(f, g);
    FeedParity(0, Errors(f, g));
  }

  // ----- a burst of errors -----

  lemma {:induction false} FeedQuiet(c: nat, bits: seq<bool>)
    requires c < 0x1_0000 && forall k :: 0 <= k < |bits| ==> !bits[k]
    ensures Feed(c, bits) == 0 <==> c == 0
    decreases |bits|
  {
    if bits != [] {
      XorZero(c);
      StepOfZero(c);
      StepWidth(c);
      FeedQuiet(Shift(c, bits[0]), bits[1..]);
    }
  }

  /** The word whose bits these are. */
  function Word(bits: seq<bool>): nat {
    if bits == [] then 0 else (if bits[0] then 1 else 0) + 2 * Word(bits[1..])
  }

  lemma {:induction false} WordHasBits(bits: seq<bool>)
    ensures Word(bits) < Shl1(|bits|) && BitsOf(Word(bits), |bits|) == bits
  {
    if bits != [] { WordHasBits(bits[1..]); }
  }

  lemma {:induction false} WordNotZero(bits: seq<bool>, k: nat)
    requires k < |bits| && bits[k]
    ensures Word(bits) != 0
  {
    if k > 0 { WordNotZero(bits[1..], k - 1); }
  }

  lemma {:induction false} ShortBurst(bits: seq<bool>)
    requires |bits| <= 16
    requires exists k :: 0 <= k < |bits| && bits[k]
    ensures 0 < Feed(0, bits) < 0x1_0000
  {
    var w := Word(bits);
    WordHasBits(bits);
    var k :| 0 <= k < |bits| && bits[k];
    WordNotZero(bits, k);
    FeedWord(0, w, |bits|);
    XorZero(w);
    Shl1Monotone(|bits|, 16);
    Widths();
    StepsOfZero(w, |bits|);
    FeedWidth(0, bits);
  }

  lemma {:induction false} Shl1Monotone(m: nat, n: nat)
    requires m <= n
    ensures Shl1(m) <= Shl1(n)
  {
    if m < n { MaskWidth(m, n); }
  }

  lemma BurstResidue(before: seq<bool>, burst: seq<bool>, after: seq<bool>)
    requires forall k :: 0 <= k < |before| ==> !before[k]
    requires forall k :: 0 <= k < |after| ==> !after[k]
    requires |burst| <= 16 && exists k :: 0 <= k < |burst| && burst[k]
    ensures Feed(0, before + (burst + after)) != 0
  {
    FeedConcat(0, before, burst + after);
    FeedQuiet(0, before);
    FeedConcat(0, burst, after);
    ShortBurst(burst);
    FeedQuiet(Feed(0, burst), after);
  }

  /** Any nonzero burst of at most 16 bits, the frame's own CRC bytes included, is noticed: all the
      errors lie in [from, to). */
  lemma BurstDetected(f: seq<uint8>, g: seq<uint8>, from: nat, to: nat)
    requires |f| == |g| && Valid(f) && f != g
    requires from <= to <= 8 * |f| && to - from <= 16
    requires forall k :: 0 <= k < 8 * |f| && Errors(f, g)[k] ==> from <= k < to
    ensures !Valid(g)
  {
    var e := Errors(f, g);
    DifferentBytesDiffer(f, g);
    BurstInside(e, from, to);
    ErrorsSlipThroughIff(f, g);
  }

  lemma BurstInside(e: seq<bool>, from: nat, to: nat)
    requires from <= to <= |e| && to - from <= 16
    requires forall k :: 0 <= k < |e| && e[k] ==> from <= k < to
    requires exists k :: 0 <= k < |e| && e[k]
    ensures Feed(0, e) != 0
  {
    var k :| 0 <= k < |e| && e[k];
    var before, burst, after := e[..from], e[from..to], e[to..];
    assert burst[k - from];
    BurstResidue(before, burst, after);
    assert e == before + (burst + after);
  }

  lemma {:induction false} SameBits(x: nat, y: nat, n: nat)
    requires x < Shl1(n) && y < Shl1(n) && BitsOf(x, n) == BitsOf(y, n)
    ensures x == y
  {
    if n > 0 {
      assert BitsOf(x, n)[0] == BitsOf(y, n)[0];
      assert BitsOf(x, n)[1..] == BitsOf(y, n)[1..];
      SameBits(x / 2, y / 2, n - 1);
    }
  }

  lemma {:induction false} BitsInjective(f: seq<uint8>, g: seq<uint8>)
    requires |f| == |g| && Bits(f) == Bits(g)
    ensures f == g
  {
    if f != [] {
      Widths();
      assert BitsOf(f[0], 8) == Bits(f)[..8] && BitsOf(g[0], 8) == Bits(g)[..8];
      SameBits(f[0], g[0], 8);
      assert Bits(f[1..]) == Bits(f)[8..] && Bits(g[1..]) == Bits(g)[8..];
      BitsInjective(f[1..], g[1..]);
    }
  }

  lemma DifferentBytesDiffer(f: seq<uint8>, g: seq<uint8>)
    requires |f| == |g| && f != g
    ensures exists k :: 0 <= k < 8 * |f| && Errors(f, g)[k]
  {
    if forall k :: 0 <= k < 8 * |f| ==> !Errors(f, g)[k] {
      assert forall k :: 0 <= k < 8 * |f| ==> Errors(f, g)[k] == (Bits(f)[k] != Bits(g)[k]);
      assert Bits(f) == Bits(g);
      BitsInjective(f, g);
    }
  }
}
