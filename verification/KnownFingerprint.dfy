/** The fingerprint pinned down: what the encoding of an entry looks like byte by byte, one step of FNV-1a
    (draft-eastlake-fnv, section 2) in plain arithmetic, and the fingerprint of one known table. */
module KnownFingerprint {
  import opened Words
  import opened Registers
  import opened Fingerprint
  import Bitwise

  // ----- the encoding, byte by byte -----

  /** The types in the order of their codes. */
  const TYPES := [U8, U16, U32, I8, I16, I32, Float, Bool]

  lemma TypeCodes(ty: RegType)
    ensures TypeCode(ty) < 8 && TYPES[TypeCode(ty)] == ty
  {
  }

  function Little(a: uint8, b: uint8, c: uint8, d: uint8): uint32 {
    var w: nat, x: nat, y: nat, z: nat := a, b, c, d;
    w + 256 * x + 65536 * y + 16777216 * z
  }

  lemma FixedFields(e: Entry)
    ensures var f := FixedBytes(e);
      && f[0] < 8 && TYPES[f[0]] == e.rtype && f[1] == (if e.perm == RO then 0 else 1)
      && Little(f[2], f[3], f[4], f[5]) == e.min && Little(f[6], f[7], f[8], f[9]) == e.max
      && Little(f[10], f[11], 0, 0) == e.modbusAddr
  {
    TypeCodes(e.rtype);
    var low, high := Le32(e.min), Le32(e.max);
    assert FixedBytes(e)[2..6] == low && FixedBytes(e)[6..10] == high;
    Le32Is(e.min);
    Le32Is(e.max);
  }

  /** These characters, each as one byte, stand at this place. */
  predicate TextAt(bytes: seq<uint8>, at: nat, s: string) {
    at + |s| < |bytes| && bytes[at + |s|] == 0 && forall k :: 0 <= k < |s| ==> bytes[at + k] == s[k] as int % 256
  }

  /** An entry's bytes: the name and a NUL; type and permission code; the two limits and the Modbus address, the
      lowest byte first; the description and a NUL. */
  lemma EntryLayout(e: Entry)
    ensures var bytes, n := EntryBytes(e), |e.name|;
      && |bytes| == n + |Description(e)| + 14 && TextAt(bytes, 0, e.name) && TextAt(bytes, n + 13, Description(e))
      && bytes[n + 1] < 8 && TYPES[bytes[n + 1]] == e.rtype && bytes[n + 2] == (if e.perm == RO then 0 else 1)
      && Little(bytes[n + 3], bytes[n + 4], bytes[n + 5], bytes[n + 6]) == e.min
      && Little(bytes[n + 7], bytes[n + 8], bytes[n + 9], bytes[n + 10]) == e.max
      && Little(bytes[n + 11], bytes[n + 12], 0, 0) == e.modbusAddr
  {
    FixedFields(e);
    var bytes, name, f, desc := EntryBytes(e), TextBytes(e.name), FixedBytes(e), TextBytes(Description(e));
    assert bytes == name + (f + desc);
    assert forall k :: 0 <= k < 12 ==> bytes[|e.name| + 1 + k] == f[k];
    assert forall k :: 0 <= k < |desc| ==> bytes[|e.name| + 13 + k] == desc[k];
  }

  lemma Le32Is(n: uint32)
    ensures var b := Le32(n); |b| == 4 && Little(b[0], b[1], b[2], b[3]) == n
  {
    var a: nat := n;
    var b, c, d := a / 0x100, a / 0x1_0000, a / 0x100_0000;
    assert a == 0x100 * b + a % 0x100;
    assert b / 0x100 == c && b == 0x100 * c + b % 0x100;
    assert c / 0x100 == d && c == 0x100 * d + c % 0x100;
  }

  /** A table's bytes are its entries', in table order. */
  lemma EncodedInOrder(e: Entry, rest: Table)
    ensures Encode([e] + rest) == EntryBytes(e) + Encode(rest)
  {
    assert Parts([e] + rest)[0] == EntryBytes(e) && Parts([e] + rest)[1..] == Parts(rest);
  }

  // ----- a known fingerprint -----

  lemma FoldFirst(h: uint32, b: uint8, rest: seq<uint8>)
    ensures Fold(h, [b] + rest) == Fold(Mix(h, b), rest)
  {
    assert [b][..0] == [];
    FoldConcat(h, [b], rest);
  }

  /** What one NUL makes of the hash. */
  function Nul(h: uint32): uint32 {
    var n: nat := h;
    n * 16777619 % 0x1_0000_0000
  }

  lemma FoldNul(h: uint32, bytes: seq<uint8>, next: uint32)
    requires bytes != [] && bytes[0] == 0 && Nul(h) == next
    ensures Fold(h, bytes) == Fold(next, bytes[1..])
  {
    Bitwise.XorZero(h);
    assert bytes == [bytes[0]] + bytes[1..];
    FoldFirst(h, bytes[0], bytes[1..]);
  }

  lemma SevenNuls(h: uint32, bytes: seq<uint8>, a: uint32, b: uint32, c: uint32, d: uint32, e: uint32, f: uint32,
                  g: uint32)
    requires |bytes| >= 7 && forall k :: 0 <= k < 7 ==> bytes[k] == 0
    requires Nul(h) == a && Nul(a) == b && Nul(b) == c && Nul(c) == d && Nul(d) == e && Nul(e) == f && Nul(f) == g
    ensures Fold(h, bytes) == Fold(g, bytes[7..])
  {
    FoldNul(h, bytes, a);
    FoldNul(a, bytes[1..], b);
    FoldNul(b, bytes[1..][1..], c);
    FoldNul(c, bytes[1..][1..][1..], d);
    FoldNul(d, bytes[1..][1..][1..][1..], e);
    FoldNul(e, bytes[1..][1..][1..][1..][1..], f);
    FoldNul(f, bytes[1..][1..][1..][1..][1..][1..], g);
    assert bytes[1..][1..][1..][1..][1..][1..][1..] == bytes[7..];
  }

  /** The letter a: bits 0, 5 and 6. */
  lemma XorLetter(h: nat, q: nat)
    requires h == 128 * q + 69
    ensures Bitwise.Xor(h, 97) == h - 33
  {
    LetterBits();
    BitsSet(h, q);
    var x := Bitwise.Xor(h, Bitwise.Shl1(6));
    Bitwise.XorAssoc(h, Bitwise.Shl1(6), Bitwise.Xor(Bitwise.Shl1(5), Bitwise.Shl1(0)));
    Bitwise.XorAssoc(x, Bitwise.Shl1(5), Bitwise.Shl1(0));
    Bitwise.XorBitValue(h, 6);
    Bitwise.XorBitAlone(h, 6, 5);
    Bitwise.XorBitAlone(h, 6, 0);
    Bitwise.XorBitValue(x, 5);
    Bitwise.XorBitAlone(x, 5, 0);
    Bitwise.XorBitValue(Bitwise.Xor(x, Bitwise.Shl1(5)), 0);
  }

  lemma LetterBits()
    ensures Bitwise.Shl1(6) == 64 && Bitwise.Shl1(5) == 32 && Bitwise.Shl1(0) == 1
    ensures Bitwise.Xor(Bitwise.Shl1(6), Bitwise.Xor(Bitwise.Shl1(5), Bitwise.Shl1(0))) == 97
  {
    Bitwise.XorBitValue(Bitwise.Shl1(5), 0);
    Bitwise.MaskBit(5, 0);
    Bitwise.XorCommutes(Bitwise.Shl1(6), Bitwise.Xor(Bitwise.Shl1(5), Bitwise.Shl1(0)));
    Bitwise.XorBitValue(Bitwise.Xor(Bitwise.Shl1(5), Bitwise.Shl1(0)), 6);
    Bitwise.XorBitAlone(Bitwise.Shl1(5), 0, 6);
    Bitwise.MaskBit(5, 6);
  }

  lemma BitsSet(h: nat, q: nat)
    requires h == 128 * q + 69
    ensures Bitwise.Bit(h, 6) && !Bitwise.Bit(h, 5) && Bitwise.Bit(h, 0)
  {
    LowEnd(h, 8 * q + 4);
    BitUp(4 * q + 2, 0);
    BitUp(4 * q + 2, 1);
    BitUp(2 * q + 1, 0);
  }

  lemma LowEnd(h: nat, a: nat)
    requires h == 16 * a + 5
    ensures Bitwise.Bit(h, 6) == Bitwise.Bit(a, 2) && Bitwise.Bit(h, 5) == Bitwise.Bit(a, 1) && Bitwise.Bit(h, 0)
  {
    assert h / 16 == a;
    Bitwise.BitFour(h, 2);
    Bitwise.BitFour(h, 1);
  }

  lemma BitUp(x: nat, k: nat)
    ensures Bitwise.Bit(2 * x, k + 1) == Bitwise.Bit(x, k)
  {
    assert 2 * x / 2 == x;
  }

  lemma FirstNuls(bytes: seq<uint8>)
    requires |bytes| >= 7 && forall k :: 0 <= k < 7 ==> bytes[k] == 0
    ensures Fold(3826002220, bytes) == Fold(2454990372, bytes[7..])
  {
    SevenNuls(3826002220, bytes, 723832900, 787733260, 4125217764, 4135620588, 4167209092, 2267643852, 2454990372);
  }

  lemma LaterNuls(bytes: seq<uint8>)
    requires |bytes| == 7 && forall k :: 0 <= k < 7 ==> bytes[k] == 0
    ensures Fold(2454990372, bytes) == 1527917900
  {
    SevenNuls(2454990372, bytes, 2122621612, 3603698884, 3880038540, 2636246116, 3227984236, 1314495748, 1527917900);
  }

  lemma FoldLetter(h: uint32, q: nat, bytes: seq<uint8>, next: uint32)
    requires bytes != [] && bytes[0] == 97 && h == 128 * q + 69 && next == Nul(h - 33)
    ensures Fold(h, bytes) == Fold(next, bytes[1..])
  {
    XorLetter(h, q);
    assert bytes == [bytes[0]] + bytes[1..];
    FoldFirst(h, bytes[0], bytes[1..]);
  }

  /** The letter, then fourteen NULs. */
  lemma LetterAndNuls(bytes: seq<uint8>)
    requires |bytes| == 15 && bytes[0] == 97 && forall k :: 1 <= k < 15 ==> bytes[k] == 0
    ensures Fold(OFFSET_BASIS, bytes) == 1527917900
  {
    FoldLetter(OFFSET_BASIS, 16922939, bytes, 3826002220);
    FirstNuls(bytes[1..]);
    LaterNuls(bytes[1..][7..]);
  }

  /** The smallest table, one read-only U8 called a, has the fingerprint 5b122d4c; no table at all has FNV's offset
      basis. */
  lemma KnownTable(e: Entry)
    requires e.name == "a" && e.rtype == U8 && e.perm == RO && e.min == 0 && e.max == 0 && e.modbusAddr == 0
    requires e.description == None
    ensures Schema([e]) == 0x5B12_2D4C && Schema([]) == 2166136261
  {
    assert EntryBytes(e) == [97, 0] + FixedBytes(e) + [0];
    EncodedInOrder(e, []);
    assert [e] + [] == [e] && EntryBytes(e) + [] == EntryBytes(e);
    LetterAndNuls(EntryBytes(e));
  }
}
