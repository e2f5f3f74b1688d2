/** Which CRC-16 this is: the taps of its register, the generator polynomial recovered from the errors that slip
    through, and the check value of CRC-16/MODBUS (MODBUS over Serial Line V1.02, section 6.2.2). */
module CrcGenerator {
  import opened Words
  import opened Bitwise
  import opened Crc

  // ----- the taps -----

  /** The register after a bit arrived: shifted down, and if what fell out differs from the bit, with bits 0, 13
      and 15 changed (15 is clear after the shift). */
  function Tapped(c: uint16, bit: bool): uint16 {
    var h := c / 2;
    if (c % 2 == 1) == bit then h
    else 0x8000 + h + (if h / 0x2000 % 2 == 1 then -0x2000 else 0x2000) + (if h % 2 == 1 then -1 else 1)
  }

  /** Three single bits, one after the other. */
  lemma XorThree(h: nat, i: nat, j: nat, k: nat)
    requires h < Shl1(i) && i > j > k
    ensures Xor(h, Xor(Shl1(i), Xor(Shl1(j), Shl1(k))))
         == h + Shl1(i) + Change(h, j) + Change(h, k)
  {
    var x := Xor(h, Shl1(i));
    XorAssoc(h, Shl1(i), Xor(Shl1(j), Shl1(k)));
    XorAssoc(x, Shl1(j), Shl1(k));
    SmallBit(h, i);
    XorBitValue(h, i);
    XorBitAlone(h, i, j);
    XorBitAlone(h, i, k);
    XorBitValue(x, j);
    XorBitAlone(x, j, k);
    XorBitValue(Xor(x, Shl1(j)), k);
  }

  function TapWord(): nat {
    Xor(Shl1(15), Xor(Shl1(13), Shl1(0)))
  }

  lemma TapValues()
    ensures Shl1(15) == 0x8000 && Shl1(13) == 0x2000 && Shl1(0) == 1
  {
    Widths();
    assert Shl1(13) == 0x20 * Shl1(8);
  }

  lemma TapsAre()
    ensures TapWord() == 0xA001
  {
    TapValues();
    XorThree(0, 15, 13, 0);
    ZeroBit(13);
    ZeroBit(0);
    XorZero(TapWord());
  }

  lemma Bit13(h: nat)
    ensures Bit(h, 13) == (h / 0x2000 % 2 == 1)
  {
    BitFour(h, 9);
    BitFour(h / 0x10, 5);
    BitFour(h / 0x10 / 0x10, 1);
    assert Bit(h / 0x10 / 0x10 / 0x10, 1) == Bit(h / 0x10 / 0x10 / 0x10 / 2, 0);
    assert h / 0x10 / 0x10 / 0x10 / 2 == h / 0x2000;
  }

  lemma XorTaps(h: nat)
    requires h < 0x8000
    ensures Xor(h, 0xA001)
         == 0x8000 + h + (if h / 0x2000 % 2 == 1 then -0x2000 else 0x2000) + (if h % 2 == 1 then -1 else 1)
  {
    TapsAre();
    TapValues();
    Bit13(h);
    XorThree(h, 15, 13, 0);
  }

  lemma ShiftTapped(c: uint16, bit: bool)
    ensures Shift(c, bit) == Tapped(c, bit)
  {
    XorTaps(c / 2);
    XorHalves(c, 1);
    XorZero(c / 2);
    XorZero(c);
  }

  // ----- the generator -----

  /** The coefficients of x^16 + x^15 + x^2 + 1, the highest power first: the order in which bits travel. */
  predicate IsGenerator(e: seq<bool>) {
    |e| == 17 && forall k :: 0 <= k < 17 ==> (e[k] <==> 16 - k == 16 || 16 - k == 15 || 16 - k == 2 || 16 - k == 0)
  }

  /** A register that is nothing but the next 16 bits to come. */
  lemma AwaitedBits(c: uint16, bits: seq<bool>)
    requires |bits| == 16
    ensures Feed(c, bits) == 0 <==> bits == BitsOf(c, 16)
  {
    var w := Word(bits);
    WordHasBits(bits);
    Widths();
    FeedOwnCrc(c, w);
    if BitsOf(w, 16) == BitsOf(c, 16) { SameBits(w, c, 16); }
  }

  lemma Remainder()
    ensures Shift(0, true) == 0xA001
  {
    ShiftTapped(0, true);
    ZeroBit(13);
  }

  lemma {:induction false} BitsAt(x: nat, n: nat, k: nat)
    requires k < n
    ensures BitsOf(x, n)[k] == Bit(x, k)
  {
    if k > 0 { BitsAt(x / 2, n - 1, k - 1); }
  }

  lemma RemainderAt(k: nat)
    ensures Bit(0xA001, k) <==> k == 0 || k == 13 || k == 15
  {
    TapsAre();
    XorBit(Shl1(15), Xor(Shl1(13), Shl1(0)), k);
    XorBit(Shl1(13), Shl1(0), k);
    MaskBit(15, k);
    MaskBit(13, k);
    MaskBit(0, k);
  }

  lemma RemainderBits(bits: seq<bool>)
    requires |bits| == 16
    ensures bits == BitsOf(0xA001, 16) <==> forall k :: 0 <= k < 16 ==> (bits[k] <==> k == 0 || k == 13 || k == 15)
  {
    var r := BitsOf(0xA001, 16);
    forall k | 0 <= k < 16 ensures r[k] <==> k == 0 || k == 13 || k == 15 {
      BitsAt(0xA001, 16, k);
      RemainderAt(k);
    }
  }

  /** A pattern of 17 bits that begins with an error leaves nothing exactly when it is the generator. */
  lemma GeneratorAlone(e: seq<bool>)
    requires |e| == 17 && e[0]
    ensures Feed(0, e) == 0 <==> IsGenerator(e)
  {
    Remainder();
    AwaitedBits(0xA001, e[1..]);
    RemainderBits(e[1..]);
    AfterFirst(e, e[1..]);
  }

  lemma AfterFirst(e: seq<bool>, rest: seq<bool>)
    requires |e| == 17 && e[0] && rest == e[1..]
    ensures IsGenerator(e) <==> forall k :: 0 <= k < 16 ==> (rest[k] <==> k == 0 || k == 13 || k == 15)
  {
    assert forall k :: 0 <= k < 16 ==> rest[k] == e[k + 1];
    assert forall k :: 1 <= k < 17 ==> e[k] == rest[k - 1];
  }

  /** Nothing but the burst decides. */
  lemma BurstLeaves(before: seq<bool>, burst: seq<bool>, after: seq<bool>)
    requires forall k :: 0 <= k < |before| ==> !before[k]
    requires forall k :: 0 <= k < |after| ==> !after[k]
    ensures Feed(0, before + (burst + after)) == 0 <==> Feed(0, burst) == 0
  {
    FeedConcat(0, before, burst + after);
    FeedQuiet(0, before);
    FeedConcat(0, burst, after);
    FeedWidth(0, burst);
    FeedQuiet(Feed(0, burst), after);
  }

  lemma ThreeParts(e: seq<bool>, from: nat, to: nat)
    requires from <= to <= |e|
    ensures e[..from] + (e[from..to] + e[to..]) == e
  {
  }

  lemma QuietAround(e: seq<bool>, from: nat, to: nat)
    requires from <= to <= |e| && forall k :: 0 <= k < |e| && e[k] ==> from <= k < to
    ensures forall k :: 0 <= k < from ==> !e[..from][k]
    ensures forall k :: 0 <= k < |e| - to ==> !e[to..][k]
  {
    forall k | 0 <= k < from ensures !e[..from][k] { assert e[..from][k] == e[k]; }
    forall k | 0 <= k < |e| - to ensures !e[to..][k] { assert e[to..][k] == e[to + k]; }
  }

  lemma BurstAt(e: seq<bool>, from: nat, to: nat)
    requires from <= to <= |e| && forall k :: 0 <= k < |e| && e[k] ==> from <= k < to
    ensures Feed(0, e) == 0 <==> Feed(0, e[from..to]) == 0
  {
    QuietAround(e, from, to);
    BurstLeaves(e[..from], e[from..to], e[to..]);
    ThreeParts(e, from, to);
  }

  /** Bursts of up to 16 bits are always noticed; of those of 17 bits, exactly one shape passes: the generator. */
  lemma UndetectedBurst(f: seq<uint8>, g: seq<uint8>, from: nat, burst: seq<bool>)
    requires |f| == |g| && Valid(f) && from + 17 <= 8 * |f| && burst == Errors(f, g)[from..from + 17] && burst[0]
    requires forall k :: 0 <= k < 8 * |f| && Errors(f, g)[k] ==> from <= k < from + 17
    ensures Valid(g) <==> IsGenerator(burst)
  {
    ErrorsSlipThroughIff(f, g);
    BurstAt(Errors(f, g), from, from + 17);
    GeneratorAlone(burst);
  }

  // ----- the check value -----

  /** Four bits shifted in, with what the register holds after each. */
  predicate Four(c: uint16, nibble: nat, c1: uint16, c2: uint16, c3: uint16, c4: uint16) {
    && Tapped(c, nibble % 2 == 1) == c1 && Tapped(c1, nibble / 2 % 2 == 1) == c2
    && Tapped(c2, nibble / 2 / 2 % 2 == 1) == c3 && Tapped(c3, nibble / 2 / 2 / 2 % 2 == 1) == c4
  }

  lemma BitFed(c: uint16, w: nat, n: nat)
    requires n > 0
    ensures Feed(c, BitsOf(w, n)) == Feed(Tapped(c, w % 2 == 1), BitsOf(w / 2, n - 1))
  {
    ShiftTapped(c, w % 2 == 1);
    assert BitsOf(w, n)[1..] == BitsOf(w / 2, n - 1);
  }

  lemma FourFed(c: uint16, w: nat, n: nat, c1: uint16, c2: uint16, c3: uint16, c4: uint16)
    requires n >= 4 && Four(c, w, c1, c2, c3, c4)
    ensures Feed(c, BitsOf(w, n)) == Feed(c4, BitsOf(w / 2 / 2 / 2 / 2, n - 4))
  {
    BitFed(c, w, n);
    BitFed(c1, w / 2, n - 1);
    BitFed(c2, w / 2 / 2, n - 2);
    BitFed(c3, w / 2 / 2 / 2, n - 3);
  }

  /** The first byte of the data. */
  lemma ByteFed(data: seq<uint8>, c: uint16, c1: uint16, c2: uint16, c3: uint16, c4: uint16, c5: uint16, c6: uint16,
                c7: uint16, c8: uint16)
    requires data != [] && Four(c, data[0], c1, c2, c3, c4) && Four(c4, data[0] / 2 / 2 / 2 / 2, c5, c6, c7, c8)
    ensures Feed(c, Bits(data)) == Feed(c8, Bits(data[1..]))
  {
    FourFed(c, data[0], 8, c1, c2, c3, c4);
    FourFed(c4, data[0] / 2 / 2 / 2 / 2, 4, c5, c6, c7, c8);
    FeedConcat(c, BitsOf(data[0], 8), Bits(data[1..]));
  }

  lemma DigitOne(data: seq<uint8>)
    requires data != [] && data[0] == 0x31
    ensures Feed(0xFFFF, Bits(data)) == Feed(0x947E, Bits(data[1..]))
  {
    ByteFed(data, 0xFFFF, 0x7FFF, 0x9FFE, 0x4FFF, 0x87FE, 0xE3FE, 0xD1FE, 0x68FF, 0x947E);
  }

  lemma DigitTwo(data: seq<uint8>)
    requires data != [] && data[0] == 0x32
    ensures Feed(0x947E, Bits(data)) == Feed(0xF595, Bits(data[1..]))
  {
    ByteFed(data, 0x947E, 0x4A3F, 0x251F, 0xB28E, 0x5947, 0x2CA3, 0x1651, 0xAB29, 0xF595);
  }

  lemma DigitThree(data: seq<uint8>)
    requires data != [] && data[0] == 0x33
    ensures Feed(0xF595, Bits(data)) == Feed(0x7A75, Bits(data[1..]))
  {
    ByteFed(data, 0xF595, 0x7ACA, 0x9D64, 0x4EB2, 0x2759, 0x13AC, 0xA9D7, 0xF4EA, 0x7A75);
  }

  lemma DigitFour(data: seq<uint8>)
    requires data != [] && data[0] == 0x34
    ensures Feed(0x7A75, Bits(data)) == Feed(0x30BA, Bits(data[1..]))
  {
    ByteFed(data, 0x7A75, 0x9D3B, 0xEE9C, 0xD74F, 0xCBA6, 0xC5D2, 0xC2E8, 0x6174, 0x30BA);
  }

  lemma DigitFive(data: seq<uint8>)
    requires data != [] && data[0] == 0x35
    ensures Feed(0x30BA, Bits(data)) == Feed(0xA471, Bits(data[1..]))
  {
    ByteFed(data, 0x30BA, 0xB85C, 0x5C2E, 0x8E16, 0x470B, 0x2385, 0x11C2, 0x08E1, 0xA471);
  }

  lemma DigitSix(data: seq<uint8>)
    requires data != [] && data[0] == 0x36
    ensures Feed(0xA471, Bits(data)) == Feed(0x32E4, Bits(data[1..]))
  {
    ByteFed(data, 0xA471, 0xF239, 0x791C, 0x9C8F, 0xEE46, 0xD722, 0xCB90, 0x65C8, 0x32E4);
  }

  lemma DigitSeven(data: seq<uint8>)
    requires data != [] && data[0] == 0x37
    ensures Feed(0x32E4, Bits(data)) == Feed(0x9D73, Bits(data[1..]))
  {
    ByteFed(data, 0x32E4, 0xB973, 0x5CB9, 0x2E5C, 0x172E, 0xAB96, 0xF5CA, 0x7AE5, 0x9D73);
  }

  lemma DigitEight(data: seq<uint8>)
    requires data != [] && data[0] == 0x38
    ensures Feed(0x9D73, Bits(data)) == Feed(0x37DD, Bits(data[1..]))
  {
    ByteFed(data, 0x9D73, 0xEEB8, 0x775C, 0x3BAE, 0xBDD6, 0xFEEA, 0xDF74, 0x6FBA, 0x37DD);
  }

  lemma DigitNine(data: seq<uint8>)
    requires data != [] && data[0] == 0x39
    ensures Feed(0x37DD, Bits(data)) == Feed(0x4B37, Bits(data[1..]))
  {
    ByteFed(data, 0x37DD, 0x1BEE, 0x0DF7, 0xA6FA, 0xF37C, 0xD9BF, 0x6CDF, 0x966E, 0x4B37);
  }

  lemma DigitsToFive(data: seq<uint8>)
    requires |data| == 9 && forall k :: 0 <= k < 9 ==> data[k] == '1' as int + k
    ensures Feed(0xFFFF, Bits(data)) == Feed(0xA471, Bits(data[5..]))
  {
    DigitOne(data);
    DigitTwo(data[1..]);
    DigitThree(data[2..]);
    DigitFour(data[3..]);
    DigitFive(data[4..]);
    assert data[1..][1..] == data[2..] && data[2..][1..] == data[3..] && data[3..][1..] == data[4..];
    assert data[4..][1..] == data[5..];
  }

  lemma DigitsFromSix(data: seq<uint8>)
    requires |data| == 4 && forall k :: 0 <= k < 4 ==> data[k] == '6' as int + k
    ensures Feed(0xA471, Bits(data)) == 0x4B37
  {
    DigitSix(data);
    DigitSeven(data[1..]);
    DigitEight(data[2..]);
    DigitNine(data[3..]);
    assert data[1..][1..] == data[2..] && data[2..][1..] == data[3..] && data[3..][1..] == [];
  }

  /** The check value: the CRC of the characters 1 to 9. */
  lemma CheckValue(data: seq<uint8>)
    requires |data| == 9 && forall k :: 0 <= k < 9 ==> data[k] == '1' as int + k
    ensures Crc16(data) == 0x4B37
  {
    DigitsToFive(data);
    DigitsFromSix(data[5..]);
  }
}
