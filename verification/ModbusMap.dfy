/** The Modbus register map: which words an entry occupies, when a span of words is exactly tiled by
    entries, and how values are packed into words. */
module ModbusMap {
  import opened Words
  import opened Registers
  import Float32

  /** entry_words */
  function WordCount(ty: RegType): (n: nat)
    ensures 1 <= n <= 2
  {
    if ty == U32 || ty == I32 || ty == Float then 2 else 1
  }

  /** Entry i is mapped (address 0 is not an address) and its span is [addr, End). */
  predicate Mapped(t: Table, i: int) {
    0 <= i < |t| && t[i].modbusAddr != 0
  }

  function End(e: Entry): nat {
    e.modbusAddr + WordCount(e.rtype)
  }

  predicate Overlap(a: Entry, b: Entry) {
    a.modbusAddr < End(b) && b.modbusAddr < End(a)
  }

  /** What regmb_init asks of the map: every span inside the 16-bit address space, no two overlapping. */
  ghost predicate MapOk(t: Table) {
    && (forall i :: Mapped(t, i) ==> End(t[i]) <= 0x1_0000)
    && (forall i, j :: Apart(t, i, j))
  }

  /** Entries i and j, if both are mapped, share no word. */
  predicate Apart(t: Table, i: int, j: int) {
    Mapped(t, i) && Mapped(t, j) && i < j ==> !Overlap(t[i], t[j])
  }

  // ----- regmb_init's scan -----

  method CheckMap(t: Table) returns (r: RegResult)
    ensures r == if MapOk(t) then Ok else TableError
  {
    var a := 0;
    while a < |t|
      invariant a <= |t|
      invariant forall i :: Mapped(t, i) && i < a ==> End(t[i]) <= 0x1_0000
      invariant forall i, j :: Mapped(t, i) && Mapped(t, j) && i < a && i < j ==> !Overlap(t[i], t[j])
    {
      if t[a].modbusAddr != 0 {
        if End(t[a]) > 0x1_0000 { assert Mapped(t, a); return TableError; }
        var b := a + 1;
        while b < |t|
          invariant a < b <= |t|
          invariant forall j :: Mapped(t, j) && a < j < b ==> !Overlap(t[a], t[j])
        {
          if t[b].modbusAddr != 0 && Overlap(t[a], t[b]) {
            assert !Apart(t, a, b);
            return TableError;
          }
          b := b + 1;
        }
      }
      a := a + 1;
    }
    return Ok;
  }

  // ----- looking words up -----

  /** The first entry whose span starts exactly at addr. */
  function EntryFrom(t: Table, addr: uint16, k: nat): (r: Option<nat>)
    requires k <= |t|
    ensures r.Some? ==> k <= r.value && Mapped(t, r.value) && t[r.value].modbusAddr == addr
    ensures r.None? ==> forall i :: k <= i && Mapped(t, i) ==> t[i].modbusAddr != addr
    decreases |t| - k
  {
    if k == |t| then None
    else if t[k].modbusAddr != 0 && t[k].modbusAddr == addr then Some(k)
    else EntryFrom(t, addr, k + 1)
  }

  /** entry_at */
  method EntryAt(t: Table, addr: uint16) returns (r: Option<nat>)
    ensures r == EntryFrom(t, addr, 0)
  {
    var k := 0;
    while k < |t|
      invariant k <= |t| && EntryFrom(t, addr, k) == EntryFrom(t, addr, 0)
    {
      if t[k].modbusAddr != 0 && t[k].modbusAddr == addr { return Some(k); }
      k := k + 1;
    }
    return None;
  }

  /** Word w belongs to entry i, whose span lies inside [from, to). */
  predicate Holds(t: Table, i: int, w: int, from: int, to: int) {
    Mapped(t, i) && t[i].modbusAddr <= w < End(t[i]) && from <= t[i].modbusAddr && End(t[i]) <= to
  }

  ghost predicate WordCovered(t: Table, w: int, from: int, to: int) {
    exists i :: Holds(t, i, w, from, to)
  }

  /** Every word of [from, to) belongs to a mapped entry lying wholly inside it. */
  ghost predicate Covered(t: Table, from: int, to: int) {
    forall w :: from <= w < to ==> WordCovered(t, w, from, to)
  }

  /** One entry further: appending the entry at `to` to a covered span. */
  lemma CoverNext(t: Table, from: nat, to: nat, i: nat)
    requires from <= to && Covered(t, from, to) && Mapped(t, i) && t[i].modbusAddr == to
    ensures Covered(t, from, End(t[i]))
  {
    forall w | from <= w < End(t[i]) ensures WordCovered(t, w, from, End(t[i])) {
      if w < to {
        assert WordCovered(t, w, from, to);
        var k :| Holds(t, k, w, from, to);
        assert Holds(t, k, w, from, End(t[i]));
      } else {
        assert Holds(t, i, w, from, End(t[i]));
      }
    }
  }

  lemma OneOrApart(t: Table, i: int, j: int)
    requires MapOk(t) && Mapped(t, i) && Mapped(t, j)
    ensures i == j || !Overlap(t[i], t[j])
  {
    assert Apart(t, i, j) && Apart(t, j, i);
  }

  /** After a covered prefix the next word must start an entry, or nothing covers it. */
  lemma GapAt(t: Table, from: nat, at: nat, to: nat)
    requires MapOk(t) && from <= at < to && Covered(t, from, at) && WordCovered(t, at, from, to)
    ensures at < 0x1_0000 && exists i :: Mapped(t, i) && t[i].modbusAddr == at
  {
    var j :| Holds(t, j, at, from, to);
    if t[j].modbusAddr != at {
      assert WordCovered(t, at - 1, from, at);
      var i :| Holds(t, i, at - 1, from, at);
      OneOrApart(t, i, j);
      assert false;
    }
  }

  /** Entries at the same address are the same entry. */
  lemma SameStart(t: Table, i: int, j: int)
    requires MapOk(t) && Mapped(t, i) && Mapped(t, j) && t[i].modbusAddr <= t[j].modbusAddr < End(t[i])
    ensures i == j
  {
    OneOrApart(t, i, j);
  }

  /** The walk stepped over the end: the entry reaching past it leaves its words there uncovered. */
  lemma SticksOut(t: Table, from: nat, to: nat, i: nat)
    requires MapOk(t) && Mapped(t, i) && from <= t[i].modbusAddr < to < End(t[i])
    ensures !Covered(t, from, to)
  {
    if Covered(t, from, to) {
      assert WordCovered(t, t[i].modbusAddr, from, to);
      var j :| Holds(t, j, t[i].modbusAddr, from, to);
      SameStart(t, j, i);
    }
  }

  /** span_covered: the greedy walk answers the declarative question, terminates, and covers nothing
      past word 0xFFFF although the lookup narrows the address to 16 bits. */
  method SpanCovered(t: Table, start: uint16, qty: uint16) returns (ok: bool)
    requires MapOk(t)
    ensures ok <==> Covered(t, start, start + qty)
    ensures ok ==> start + qty <= 0x1_0000 || qty == 0
  {
    var addr: nat := start;
    var end: nat := start + qty;
    while addr < end
      invariant start <= addr <= 0x1_0000 && Covered(t, start, addr)
      invariant addr <= end || !Covered(t, start, end)
      decreases end - addr
    {
      var e := EntryAt(t, addr % 0x1_0000);
      if e.None? {
        if Covered(t, start, end) {
          assert WordCovered(t, addr, start, end);
          GapAt(t, start, addr, end);
        }
        return false;
      }
      CoverNext(t, start, addr, e.value);
      if End(t[e.value]) > end { SticksOut(t, start, end, e.value); }
      addr := addr + WordCount(t[e.value].rtype);
    }
    return addr == end;
  }

  // ----- the tiles of a covered span -----

  /** The entries the handlers' loops visit between addr and end. */
  function Tiles(t: Table, addr: nat, end: nat): (tiles: seq<nat>)
    ensures forall k :: 0 <= k < |tiles| ==> Mapped(t, tiles[k])
    decreases end - addr
  {
    if addr >= end then []
    else
      match EntryFrom(t, addr % 0x1_0000, 0)
      case None => []
      case Some(i) => [i] + Tiles(t, addr + WordCount(t[i].rtype), end)
  }

  /** Tiles lie end to end from addr to end. */
  ghost predicate Contiguous(t: Table, tiles: seq<nat>, addr: nat, end: nat)
    ensures Contiguous(t, tiles, addr, end) ==> forall k :: 0 <= k < |tiles| ==> tiles[k] < |t|
  {
    if tiles == [] then addr == end
    else
      && Mapped(t, tiles[0]) && t[tiles[0]].modbusAddr == addr && End(t[tiles[0]]) <= end
      && Contiguous(t, tiles[1..], End(t[tiles[0]]), end)
  }

  /** A covered span splits: what remains after its first entry is covered too. */
  lemma CoverRest(t: Table, addr: nat, end: nat, i: nat)
    requires MapOk(t) && addr < end && Covered(t, addr, end) && Mapped(t, i) && t[i].modbusAddr == addr
    ensures End(t[i]) <= end && Covered(t, End(t[i]), end)
  {
    if End(t[i]) > end { SticksOut(t, addr, end, i); }
    forall w | End(t[i]) <= w < end ensures WordCovered(t, w, End(t[i]), end) {
      assert WordCovered(t, w, addr, end);
      var j :| Holds(t, j, w, addr, end);
      if t[j].modbusAddr < End(t[i]) { SameStart(t, i, j); }
      assert Holds(t, j, w, End(t[i]), end);
    }
  }

  lemma {:induction false} TilesContiguous(t: Table, addr: nat, end: nat)
    requires MapOk(t) && addr <= end && Covered(t, addr, end)
    ensures Contiguous(t, Tiles(t, addr, end), addr, end)
    ensures addr < end ==> end <= 0x1_0000 && Tiles(t, addr, end) != []
    decreases end - addr
  {
    if addr < end {
      assert WordCovered(t, addr, addr, end);
      assert Covered(t, addr, addr);
      GapAt(t, addr, addr, end);
      var i := EntryFrom(t, addr % 0x1_0000, 0).value;
      CoverRest(t, addr, end, i);
      TilesContiguous(t, End(t[i]), end);
      assert Tiles(t, addr, end)[1..] == Tiles(t, End(t[i]), end);
    }
  }

  /** The entry the lookup finds at the head of contiguous tiles is the first tile. */
  lemma HeadTile(t: Table, tiles: seq<nat>, addr: nat, end: nat)
    requires MapOk(t) && addr < end && Contiguous(t, tiles, addr, end)
    ensures tiles != [] && addr < 0x1_0000 && EntryFrom(t, addr, 0) == Some(tiles[0])
    ensures End(t[tiles[0]]) == addr + WordCount(t[tiles[0]].rtype) <= end
    ensures Contiguous(t, tiles[1..], End(t[tiles[0]]), end)
  {
    var e := EntryFrom(t, addr, 0);
    if e.Some? { SameStart(t, e.value, tiles[0]); }
  }

  // ----- raw values and wire words -----

  /** raw_to_words: high byte first in a word; the word order of two-word values is the device's. */
  function RawToWords(swap: bool, ty: RegType, raw: uint32): (bytes: seq<uint8>)
    ensures |bytes| == 2 * WordCount(ty)
  {
    var hi, lo := raw / 0x1_0000, raw % 0x1_0000;
    if WordCount(ty) == 1 then WordBytes(lo)
    else if swap then WordBytes(lo) + WordBytes(hi)
    else WordBytes(hi) + WordBytes(lo)
  }

  function WordBytes(w: uint16): (bytes: seq<uint8>)
    ensures |bytes| == 2
  {
    [w / 0x100, w % 0x100]
  }

  function Word(high: uint8, low: uint8): uint16 {
    0x100 * high + low
  }

  /** words_to_raw: signed one-word values are sign-extended. */
  function WordsToRaw(swap: bool, ty: RegType, bytes: seq<uint8>): uint32
    requires |bytes| == 2 * WordCount(ty)
  {
    var w0 := Word(bytes[0], bytes[1]);
    if WordCount(ty) == 1 then
      if (ty == I8 || ty == I16) && w0 >= 0x8000 then 0xFFFF_0000 + w0 else w0
    else
      var w1 := Word(bytes[2], bytes[3]);
      if swap then 0x1_0000 * w1 + w0 else 0x1_0000 * w0 + w1
  }

  /** What a written word reads back as: BOOL words become 0 or 1. */
  function NormalWords(ty: RegType, bytes: seq<uint8>): (r: seq<uint8>)
    requires |bytes| == 2 * WordCount(ty)
    ensures |r| == |bytes|
  {
    if ty == Bool then (if bytes[0] == 0 && bytes[1] == 0 then [0, 0] else [0, 1]) else bytes
  }

  lemma HighLow(high: uint8, low: uint8)
    ensures WordBytes(Word(high, low)) == [high, low]
  {
  }

  lemma HalfWords(high: uint16, low: uint16)
    ensures (0x1_0000 * high + low) / 0x1_0000 == high && (0x1_0000 * high + low) % 0x1_0000 == low
  {
  }

  lemma OneWordRoundTrip(swap: bool, ty: RegType, bytes: seq<uint8>)
    requires |bytes| == 2 && WordCount(ty) == 1
    ensures RawToWords(swap, ty, Normal(ty, WordsToRaw(swap, ty, bytes))) == NormalWords(ty, bytes)
  {
    var w := Word(bytes[0], bytes[1]);
    HighLow(bytes[0], bytes[1]);
    HalfWords(0xFFFF, w);
    HalfWords(0, w);
    assert bytes == [bytes[0], bytes[1]];
  }

  lemma TwoWords(swap: bool, ty: RegType, w0: uint16, w1: uint16)
    requires WordCount(ty) == 2
    ensures RawToWords(swap, ty, if swap then 0x1_0000 * w1 + w0 else 0x1_0000 * w0 + w1)
         == WordBytes(w0) + WordBytes(w1)
  {
    HalfWords(w0, w1);
    HalfWords(w1, w0);
  }

  lemma TwoWordsRoundTrip(swap: bool, ty: RegType, bytes: seq<uint8>, w0: uint16, w1: uint16)
    requires |bytes| == 4 && WordCount(ty) == 2
    requires w0 == Word(bytes[0], bytes[1]) && w1 == Word(bytes[2], bytes[3])
    ensures RawToWords(swap, ty, WordsToRaw(swap, ty, bytes)) == WordBytes(w0) + WordBytes(w1)
  {
    TwoWords(swap, ty, w0, w1);
  }

  /** Unpacking words and packing the accepted value again gives the words back, for every type and
      both word orders. */
  lemma WordsRoundTrip(swap: bool, ty: RegType, bytes: seq<uint8>)
    requires |bytes| == 2 * WordCount(ty)
    ensures RawToWords(swap, ty, Normal(ty, WordsToRaw(swap, ty, bytes))) == NormalWords(ty, bytes)
  {
    if WordCount(ty) == 1 {
      OneWordRoundTrip(swap, ty, bytes);
    } else {
      TwoWordsRoundTrip(swap, ty, bytes, Word(bytes[0], bytes[1]), Word(bytes[2], bytes[3]));
      HighLow(bytes[0], bytes[1]);
      HighLow(bytes[2], bytes[3]);
      assert bytes == [bytes[0], bytes[1]] + [bytes[2], bytes[3]];
    }
  }

  // ----- the numbers on the wire -----

  /** Two bytes for the types of up to 16 bits and BOOL, four for the others. */
  function WireSize(ty: RegType): nat {
    match ty
    case U8 | U16 | I8 | I16 | Bool => 2
    case U32 | I32 | Float => 4
  }

  /** The bytes as one unsigned number: high byte first in a word, high word first unless swapped. */
  function WireBits(swap: bool, bytes: seq<uint8>): uint32
    requires |bytes| == 2 || |bytes| == 4
  {
    if |bytes| == 2 then BigEndian(0, 0, bytes[0], bytes[1])
    else if swap then BigEndian(bytes[2], bytes[3], bytes[0], bytes[1])
    else BigEndian(bytes[0], bytes[1], bytes[2], bytes[3])
  }

  function BigEndian(a: uint8, b: uint8, c: uint8, d: uint8): uint32 {
    var w: nat, x: nat, y: nat, z: nat := a, b, c, d;
    16777216 * w + 65536 * x + 256 * y + z
  }

  /** The number the bytes stand for: two's complement for the signed types, at the width of the wire; for FLOAT
      the value of the bits. */
  function WireNumber(swap: bool, ty: RegType, bytes: seq<uint8>): int
    requires |bytes| == WireSize(ty)
  {
    var n: int := WireBits(swap, bytes);
    match ty
    case U8 | U16 | U32 | Bool => n
    case I8 | I16 => if n < 32768 then n else n - 65536
    case I32 => if n < 2147483648 then n else n - 4294967296
    case Float => Float32.Value(n)
  }

  lemma WireSizes(swap: bool, ty: RegType, raw: uint32)
    ensures WireSize(ty) == 2 * WordCount(ty) == |RawToWords(swap, ty, raw)|
  {
  }

  lemma BigEndianWords(a: uint8, b: uint8, c: uint8, d: uint8)
    ensures BigEndian(a, b, c, d) == 0x1_0000 * Word(a, b) + Word(c, d) && BigEndian(0, 0, c, d) == Word(c, d)
  {
  }

  lemma OneWordNumber(swap: bool, ty: RegType, bytes: seq<uint8>)
    requires WordCount(ty) == 1 && |bytes| == 2
    ensures Number(ty, WordsToRaw(swap, ty, bytes)) == WireNumber(swap, ty, bytes)
  {
    BigEndianWords(0, 0, bytes[0], bytes[1]);
  }

  lemma TwoWordNumber(swap: bool, ty: RegType, bytes: seq<uint8>)
    requires WordCount(ty) == 2 && |bytes| == 4
    ensures WordsToRaw(swap, ty, bytes) == WireBits(swap, bytes)
    ensures Number(ty, WordsToRaw(swap, ty, bytes)) == WireNumber(swap, ty, bytes)
  {
    if swap {
      BigEndianWords(bytes[2], bytes[3], bytes[0], bytes[1]);
    } else {
      BigEndianWords(bytes[0], bytes[1], bytes[2], bytes[3]);
    }
  }

  /** Unpacking reads the number on the wire, for every type and both word orders. */
  lemma WordsAreNumber(swap: bool, ty: RegType, bytes: seq<uint8>)
    requires |bytes| == WireSize(ty)
    ensures |bytes| == 2 * WordCount(ty)
    ensures Number(ty, WordsToRaw(swap, ty, bytes)) == WireNumber(swap, ty, bytes)
    ensures WireSize(ty) == 4 ==> WordsToRaw(swap, ty, bytes) == WireBits(swap, bytes)
  {
    if WordCount(ty) == 1 { OneWordNumber(swap, ty, bytes); } else { TwoWordNumber(swap, ty, bytes); }
  }

  /** The low word of a value of up to 16 bits, sign-extended again if the type is signed. */
  lemma LowWord(ty: RegType, raw: uint32, low: uint16)
    requires WordCount(ty) == 1 && InType(ty, raw) && low == raw % 0x1_0000
    ensures (if (ty == I8 || ty == I16) && low >= 0x8000 then 0xFFFF_0000 + low else low) == raw
  {
    if raw >= 0x1_0000 {
      var w: uint16 := raw - 0xFFFF_0000;
      HalfWords(0xFFFF, w);
    }
  }

  lemma PackedOneWord(swap: bool, ty: RegType, raw: uint32)
    requires WordCount(ty) == 1 && InType(ty, raw)
    ensures WordsToRaw(swap, ty, RawToWords(swap, ty, raw)) == raw
  {
    var low: uint16 := raw % 0x1_0000;
    HighLowBack(low);
    LowWord(ty, raw, low);
    assert RawToWords(swap, ty, raw) == WordBytes(low);
  }

  lemma HighLowBack(w: uint16)
    ensures |WordBytes(w)| == 2 && Word(WordBytes(w)[0], WordBytes(w)[1]) == w
  {
  }

  lemma PackedTwoWords(swap: bool, ty: RegType, raw: uint32, high: uint16, low: uint16)
    requires WordCount(ty) == 2 && high == raw / 0x1_0000 && low == raw % 0x1_0000
    ensures WordsToRaw(swap, ty, RawToWords(swap, ty, raw)) == raw
  {
    HighLowBack(high);
    HighLowBack(low);
    var bytes := RawToWords(swap, ty, raw);
    var first, second := if swap then low else high, if swap then high else low;
    assert bytes == WordBytes(first) + WordBytes(second);
    assert bytes[0] == WordBytes(first)[0] && bytes[1] == WordBytes(first)[1];
    assert bytes[2] == WordBytes(second)[0] && bytes[3] == WordBytes(second)[1];
  }

  /** Packing a value and unpacking the words gives the value back, whatever the type can hold (of FLOAT, any bits)
      and in both word orders; so the words carry its number. */
  lemma RawRoundTrip(swap: bool, ty: RegType, raw: uint32)
    requires ty == Float || InType(ty, raw)
    ensures WordsToRaw(swap, ty, RawToWords(swap, ty, raw)) == raw
    ensures |RawToWords(swap, ty, raw)| == WireSize(ty)
    ensures WireNumber(swap, ty, RawToWords(swap, ty, raw)) == Number(ty, raw)
  {
    if WordCount(ty) == 1 {
      PackedOneWord(swap, ty, raw);
    } else {
      PackedTwoWords(swap, ty, raw, raw / 0x1_0000, raw % 0x1_0000);
    }
    WireSizes(swap, ty, raw);
    WordsAreNumber(swap, ty, RawToWords(swap, ty, raw));
  }
}
