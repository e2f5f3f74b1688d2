/** What goes over the wire, byte by byte: which code answers which fault, which numbers a write takes, what a read
    carries, and what the envelopes consist of. Sections are those of the MODBUS Application Protocol V1.1b3. */
module ModbusAnswers {
  import opened Words
  import opened Registers
  import opened ModbusMap
  import opened ModbusSlave
  import Bitwise
  import Crc
  import Float32
  import Props = ModbusProps

  // ----- exception codes -----

  lemma {:induction false} OrBitValue(x: nat, k: nat)
    ensures Bitwise.Or(x, Bitwise.Shl1(k)) == if Bitwise.Bit(x, k) then x else x + Bitwise.Shl1(k)
  {
    if k == 0 {
      OrZero(x / 2);
    } else {
      assert Bitwise.Shl1(k) / 2 == Bitwise.Shl1(k - 1) && Bitwise.Shl1(k) % 2 == 0;
      OrBitValue(x / 2, k - 1);
    }
  }

  lemma {:induction false} OrZero(x: nat)
    ensures Bitwise.Or(x, 0) == x
  {
    if x != 0 { OrZero(x / 2); }
  }

  lemma Bit7(x: nat)
    requires x < 256
    ensures Bitwise.Bit(x, 7) <==> x >= 128
  {
    Bitwise.BitFour(x, 3);
    Bitwise.BitHalf(x / 16, 2);
    Bitwise.BitHalf(x / 16 / 2, 1);
    Bitwise.BitHalf(x / 16 / 2 / 2, 0);
    assert x / 16 / 2 / 2 / 2 == x / 128;
  }

  /** The function code with its top bit set (section 7). */
  lemma ErrorCodeIs(fc: uint8)
    ensures ErrorCode(fc) == if fc < 128 then fc + 128 else fc
  {
    OrBitValue(fc, 7);
    assert Bitwise.Shl1(7) == 128;
    Bit7(fc);
  }

  /** An unknown function code is answered with exception 01. */
  lemma UnknownFunction(t: Table, h: Hooks, swap: bool, d: Device, pdu: seq<uint8>, room: nat)
    requires |d.cells| == |t| && MapOk(t) && pdu != [] && pdu[0] !in {3, 4, 6, 16} && room >= 2
    ensures PduReply(t, h, swap, d, pdu, room, false) == Reply(d, [if pdu[0] < 128 then pdu[0] + 128 else pdu[0], 1])
  {
    ErrorCodeIs(pdu[0]);
  }

  /** A read or a write-single of the wrong length with exception 03. */
  lemma WrongLength(t: Table, h: Hooks, swap: bool, d: Device, pdu: seq<uint8>, room: nat)
    requires |d.cells| == |t| && MapOk(t) && pdu != [] && pdu[0] in {3, 4, 6} && |pdu| != 5 && room >= 2
    ensures PduReply(t, h, swap, d, pdu, room, false) == Reply(d, [pdu[0] + 128, 3])
  {
    ErrorCodeIs(pdu[0]);
  }

  // ----- reading -----

  lemma WordIs(high: uint8, low: uint8)
    ensures BigEndian(0, 0, high, low) == Word(high, low)
  {
  }

  lemma ReadDispatch(t: Table, h: Hooks, swap: bool, d: Device, pdu: seq<uint8>, room: nat)
    requires |d.cells| == |t| && MapOk(t) && pdu != [] && pdu[0] in {3, 4}
    ensures PduReply(t, h, swap, d, pdu, room, false) == ReadReply(t, h, swap, d, pdu, room)
  {
  }

  lemma ReadQuantity(t: Table, h: Hooks, swap: bool, d: Device, pdu: seq<uint8>, room: nat)
    requires |d.cells| == |t| && |pdu| == 5 && (Word(pdu[3], pdu[4]) == 0 || Word(pdu[3], pdu[4]) > 125)
    ensures ReadReply(t, h, swap, d, pdu, room) == Exception(d, pdu[0], 3, room)
  {
  }

  /** What a well-formed read comes to. */
  lemma ReadWordsAnswer(t: Table, h: Hooks, swap: bool, d: Device, fc: uint8, start: nat, qty: nat, room: nat)
    requires |d.cells| == |t| && MapOk(t) && 1 <= qty <= 125 && room >= 252
    ensures var r := ReadWordsReply(t, h, swap, d, fc, start, qty, room);
      if !Covered(t, start, start + qty) then r == Exception(d, fc, 2, room)
      else |r.bytes| == 2 + 2 * qty && r.bytes[..2] == [fc, 2 * qty]
  {
    if Covered(t, start, start + qty) {
      TilesContiguous(t, start, start + qty);
      ReadTilesSize(t, h, swap, d, Tiles(t, start, start + qty), start, start + qty);
    }
  }

  /** A read of up to 125 registers: exception 03 for any other number of them, exception 02 for a span that is
      not exactly tiled by registers, and otherwise a byte count and that many bytes. */
  lemma ReadAnswer(t: Table, h: Hooks, swap: bool, d: Device, pdu: seq<uint8>, start: nat, qty: nat, room: nat)
    requires |d.cells| == |t| && MapOk(t) && |pdu| == 5 && pdu[0] in {3, 4} && room >= 252
    requires start == BigEndian(0, 0, pdu[1], pdu[2]) && qty == BigEndian(0, 0, pdu[3], pdu[4])
    ensures var r := PduReply(t, h, swap, d, pdu, room, false);
      if qty == 0 || qty > 125 then r == Reply(d, [pdu[0] + 128, 3])
      else if !Covered(t, start, start + qty) then r == Reply(d, [pdu[0] + 128, 2])
      else |r.bytes| == 2 + 2 * qty && r.bytes[..2] == [pdu[0], 2 * qty]
  {
    ErrorCodeIs(pdu[0]);
    WordIs(pdu[1], pdu[2]);
    WordIs(pdu[3], pdu[4]);
    ReadDispatch(t, h, swap, d, pdu, room);
    if qty == 0 || qty > 125 {
      ReadQuantity(t, h, swap, d, pdu, room);
    } else {
      Props.ReadUnpacked(t, h, swap, d, pdu, pdu[0], start, qty, room);
      ReadWordsAnswer(t, h, swap, d, pdu[0], start, qty, room);
    }
  }

  /** A read leaves alone what is not among its tiles, and every dirty bit. */
  lemma {:induction false} ReadTilesLeave(t: Table, h: Hooks, swap: bool, d: Device, tiles: seq<nat>, i: nat)
    requires |d.cells| == |t| && i < |t| && i !in tiles && forall k :: 0 <= k < |tiles| ==> tiles[k] < |t|
    ensures var r := ReadTiles(t, h, swap, d, tiles).d; r.cells[i] == d.cells[i] && r.dirty == d.dirty
    decreases |tiles|
  {
    if tiles != [] { ReadTilesLeave(t, h, swap, GetRaw(t, h, d, tiles[0]).d, tiles[1..], i); }
  }

  /** What reading contiguous tiles does for one of them. */
  ghost predicate Carries(t: Table, swap: bool, d: Device, r: SpanRead, addr: nat, i: nat, v: uint32)
    requires i < |t| == |d.cells| == |r.d.cells| && addr <= t[i].modbusAddr && 2 * (End(t[i]) - addr) <= |r.bytes|
  {
    && r.bytes[2 * (t[i].modbusAddr - addr)..2 * (End(t[i]) - addr)] == RawToWords(swap, t[i].rtype, v)
    && Load(t[i].rtype, r.d.cells[i]) == v && (!t[i].onRead ==> r.d.cells[i] == d.cells[i])
  }

  lemma ReadTilesStep(t: Table, h: Hooks, swap: bool, d: Device, tiles: seq<nat>, addr: nat, end: nat)
    requires |d.cells| == |t| && Contiguous(t, tiles, addr, end) && tiles != []
    ensures var f := GetRaw(t, h, d, tiles[0]);
            var later := ReadTiles(t, h, swap, f.d, tiles[1..]);
      && ReadTiles(t, h, swap, d, tiles)
         == SpanRead(later.d, RawToWords(swap, t[tiles[0]].rtype, f.raw) + later.bytes)
      && |later.bytes| == 2 * (end - End(t[tiles[0]])) && End(t[tiles[0]]) <= end
  {
    ReadTilesSize(t, h, swap, GetRaw(t, h, d, tiles[0]).d, tiles[1..], End(t[tiles[0]]), end);
  }

  lemma FirstCarries(t: Table, h: Hooks, swap: bool, d: Device, tiles: seq<nat>, addr: nat, end: nat, v: uint32)
    requires |d.cells| == |t| && Contiguous(t, tiles, addr, end) && tiles != []
    requires Yields(t, h, d, tiles[0], v)
    ensures var r := ReadTiles(t, h, swap, d, tiles);
      |r.bytes| == 2 * (end - addr) && End(t[tiles[0]]) <= end && Carries(t, swap, d, r, addr, tiles[0], v)
  {
    var i, rest := tiles[0], tiles[1..];
    var f := GetRaw(t, h, d, i);
    ReadTilesStep(t, h, swap, d, tiles, addr, end);
    YieldsHere(t, h, d, i, v);
    GetRawEffect(t, h, d, i, v);
    Props.FirstStays(t, tiles, addr, end);
    ReadTilesLeave(t, h, swap, f.d, rest, i);
    Front(RawToWords(swap, t[i].rtype, v), ReadTiles(t, h, swap, f.d, rest).bytes);
  }

  /** One more tile in front. */
  lemma LaterCarries(t: Table, swap: bool, d: Device, next: Device, later: SpanRead, words: seq<uint8>, addr: nat,
                     mid: nat, i: nat, v: uint32)
    requires i < |t| == |d.cells| == |next.cells| == |later.d.cells| && |words| == 2 * (mid - addr)
    requires addr <= mid <= t[i].modbusAddr && 2 * (End(t[i]) - mid) <= |later.bytes|
    requires Carries(t, swap, next, later, mid, i, v) && next.cells[i] == d.cells[i]
    ensures 2 * (End(t[i]) - addr) <= |words + later.bytes|
    ensures Carries(t, swap, d, SpanRead(later.d, words + later.bytes), addr, i, v)
  {
    Behind(words, later.bytes, 2 * (t[i].modbusAddr - mid), 2 * (End(t[i]) - mid));
  }

  lemma {:induction false} TileCarries(t: Table, h: Hooks, swap: bool, d: Device, tiles: seq<nat>, addr: nat, end: nat,
                                       i: nat, v: uint32)
    requires |d.cells| == |t| && Contiguous(t, tiles, addr, end) && i in tiles && i < |t|
    requires Yields(t, h, d, i, v)
    ensures addr <= t[i].modbusAddr && End(t[i]) <= end
    ensures var r := ReadTiles(t, h, swap, d, tiles);
      |r.bytes| == 2 * (end - addr) && Carries(t, swap, d, r, addr, i, v)
    decreases |tiles|
  {
    if i == tiles[0] {
      FirstCarries(t, h, swap, d, tiles, addr, end, v);
    } else {
      var f := GetRaw(t, h, d, tiles[0]);
      ReadTilesStep(t, h, swap, d, tiles, addr, end);
      OthersYield(t, h, d, i, tiles[0], v);
      TileCarries(t, h, swap, f.d, tiles[1..], End(t[tiles[0]]), end, i, v);
      LaterCarries(t, swap, d, f.d, ReadTiles(t, h, swap, f.d, tiles[1..]),
                   RawToWords(swap, t[tiles[0]].rtype, f.raw), addr, End(t[tiles[0]]), i, v);
    }
  }

  lemma Front(a: seq<uint8>, b: seq<uint8>)
    ensures (a + b)[..|a|] == a && (a + b)[0..|a|] == a
  {
  }

  lemma Behind(a: seq<uint8>, b: seq<uint8>, from: nat, to: nat)
    requires from <= to <= |b|
    ensures (a + b)[|a| + from..|a| + to] == b[from..to]
  {
  }

  /** Entry i is mapped, wholly between these words. */
  predicate Inside(t: Table, i: nat, start: nat, end: nat) {
    Mapped(t, i) && start <= t[i].modbusAddr && End(t[i]) <= end
  }

  lemma SpanCarries(t: Table, h: Hooks, swap: bool, d: Device, start: nat, end: nat, i: nat, v: uint32)
    requires |d.cells| == |t| && MapOk(t) && start <= end && Covered(t, start, end) && Inside(t, i, start, end)
    requires Yields(t, h, d, i, v)
    ensures var r := ReadTiles(t, h, swap, d, Tiles(t, start, end));
      |r.bytes| == 2 * (end - start) && Carries(t, swap, d, r, start, i, v)
  {
    TilesContiguous(t, start, end);
    Props.TilesComplete(t, Tiles(t, start, end), start, end, i);
    TileCarries(t, h, swap, d, Tiles(t, start, end), start, end, i, v);
  }

  lemma SpanLeaves(t: Table, h: Hooks, swap: bool, d: Device, start: nat, end: nat, j: nat)
    requires |d.cells| == |t| && MapOk(t) && start <= end && Covered(t, start, end) && j < |t|
    ensures var r := ReadTiles(t, h, swap, d, Tiles(t, start, end)).d;
      r.dirty == d.dirty && (!Inside(t, j, start, end) || !t[j].onRead ==> r.cells[j] == d.cells[j])
  {
    var tiles := Tiles(t, start, end);
    TilesContiguous(t, start, end);
    if j in tiles {
      var k :| 0 <= k < |tiles| && tiles[k] == j;
      Props.TilesFollow(t, tiles, start, end, k);
      if !t[j].onRead { TileCarries(t, h, swap, d, tiles, start, end, j, Load(t[j].rtype, d.cells[j])); }
      ReadTilesClean(t, h, swap, d, tiles);
    } else {
      ReadTilesLeave(t, h, swap, d, tiles, j);
    }
  }

  lemma {:induction false} ReadTilesClean(t: Table, h: Hooks, swap: bool, d: Device, tiles: seq<nat>)
    requires |d.cells| == |t| && forall k :: 0 <= k < |tiles| ==> tiles[k] < |t|
    ensures ReadTiles(t, h, swap, d, tiles).d.dirty == d.dirty
    decreases |tiles|
  {
    if tiles != [] { ReadTilesClean(t, h, swap, GetRaw(t, h, d, tiles[0]).d, tiles[1..]); }
  }

  /** A request for qty words from start, with a span that is covered. */
  ghost predicate ReadOf(t: Table, pdu: seq<uint8>, start: nat, qty: nat) {
    && |pdu| == 5 && pdu[0] in {3, 4} && 1 <= qty <= 125 && Covered(t, start, start + qty)
    && start == BigEndian(0, 0, pdu[1], pdu[2]) && qty == BigEndian(0, 0, pdu[3], pdu[4])
  }

  lemma ReadRuns(t: Table, h: Hooks, swap: bool, d: Device, pdu: seq<uint8>, start: nat, qty: nat, room: nat)
    returns (r: SpanRead)
    requires |d.cells| == |t| && MapOk(t) && ReadOf(t, pdu, start, qty) && room >= 252
    ensures r == ReadTiles(t, h, swap, d, Tiles(t, start, start + qty)) && |r.d.cells| == |t|
    ensures PduReply(t, h, swap, d, pdu, room, false) == Reply(r.d, [pdu[0], 2 * qty] + r.bytes)
  {
    WordIs(pdu[1], pdu[2]);
    WordIs(pdu[3], pdu[4]);
    ReadDispatch(t, h, swap, d, pdu, room);
    Props.ReadUnpacked(t, h, swap, d, pdu, pdu[0], start, qty, room);
    r := ReadTiles(t, h, swap, d, Tiles(t, start, start + qty));
  }

  /** These bytes, from the third on, hold the words of [start, ...); those of entry i are v's. */
  ghost predicate WordsOf(t: Table, swap: bool, bytes: seq<uint8>, start: nat, i: nat, v: uint32)
    requires i < |t| && start <= t[i].modbusAddr
  {
    var from := 2 + 2 * (t[i].modbusAddr - start);
    var to := from + WireSize(t[i].rtype);
    && to <= |bytes| && bytes[from..to] == RawToWords(swap, t[i].rtype, v)
    && WireNumber(swap, t[i].rtype, bytes[from..to]) == Number(t[i].rtype, v)
  }

  /** From the bytes read to the answer around them. */
  lemma Carried(t: Table, swap: bool, d: Device, r: SpanRead, head: seq<uint8>, reply: Reply, start: nat, i: nat,
                v: uint32)
    requires i < |t| == |d.cells| == |r.d.cells| && start <= t[i].modbusAddr && 2 * (End(t[i]) - start) <= |r.bytes|
    requires Carries(t, swap, d, r, start, i, v) && |head| == 2 && (t[i].rtype == Float || InType(t[i].rtype, v))
    requires reply == Reply(r.d, head + r.bytes)
    ensures |reply.d.cells| == |t| && |reply.bytes| == 2 + |r.bytes| && Load(t[i].rtype, reply.d.cells[i]) == v
    ensures WordsOf(t, swap, reply.bytes, start, i, v)
  {
    Behind(head, r.bytes, 2 * (t[i].modbusAddr - start), 2 * (End(t[i]) - start));
    RawRoundTrip(swap, t[i].rtype, v);
  }

  /** These bytes and this device are what the answer to a read consists of, as far as entry i is concerned. */
  ghost predicate AnswersWith(t: Table, swap: bool, reply: Reply, start: nat, qty: nat, i: nat, v: uint32)
    requires i < |t| && start <= t[i].modbusAddr
  {
    && |reply.d.cells| == |t| && |reply.bytes| == 2 + 2 * qty && WordsOf(t, swap, reply.bytes, start, i, v)
    && Load(t[i].rtype, reply.d.cells[i]) == v
  }

  lemma SpanAnswers(t: Table, h: Hooks, swap: bool, d: Device, start: nat, qty: nat, head: seq<uint8>, r: SpanRead,
                    i: nat, v: uint32)
    requires ValidDevice(t, d) && MapOk(t) && Covered(t, start, start + qty) && Inside(t, i, start, start + qty)
    requires Yields(t, h, d, i, v) && |head| == 2
    requires r == ReadTiles(t, h, swap, d, Tiles(t, start, start + qty)) && |r.d.cells| == |t|
    ensures AnswersWith(t, swap, Reply(r.d, head + r.bytes), start, qty, i, v)
  {
    SpanCarries(t, h, swap, d, start, start + qty, i, v);
    YieldsHere(t, h, d, i, v);
    if t[i].rtype != Float { YieldsInType(t, h, d, i, v); }
    Carried(t, swap, d, r, head, Reply(r.d, head + r.bytes), start, i, v);
  }

  /** The words of register i in the answer to a read of its span are those of the very value the register
      yields, on_read included, and that value is left in its variable. */
  lemma ReadCarries(t: Table, h: Hooks, swap: bool, d: Device, pdu: seq<uint8>, start: nat, qty: nat, room: nat,
                    i: nat, v: uint32)
    requires ValidDevice(t, d) && MapOk(t) && ReadOf(t, pdu, start, qty) && room >= 252
    requires Inside(t, i, start, start + qty) && Yields(t, h, d, i, v)
    ensures AnswersWith(t, swap, PduReply(t, h, swap, d, pdu, room, false), start, qty, i, v)
  {
    var r := ReadRuns(t, h, swap, d, pdu, start, qty, room);
    SpanAnswers(t, h, swap, d, start, qty, [pdu[0], 2 * qty], r, i, v);
  }

  /** A read marks nothing, and changes no variable but those of registers it reads that have an on_read. */
  lemma ReadLeaves(t: Table, h: Hooks, swap: bool, d: Device, pdu: seq<uint8>, start: nat, qty: nat, room: nat, j: nat)
    requires |d.cells| == |t| && MapOk(t) && ReadOf(t, pdu, start, qty) && room >= 252 && j < |t|
    ensures var r := PduReply(t, h, swap, d, pdu, room, false).d;
      && |r.cells| == |t| && r.dirty == d.dirty
      && (r.cells[j] != d.cells[j] ==> t[j].onRead && Inside(t, j, start, start + qty))
  {
    var r := ReadRuns(t, h, swap, d, pdu, start, qty, room);
    SpanLeaves(t, h, swap, d, start, start + qty, j);
  }

  // ----- writing -----

  /** The number these bytes put on the wire is one the register may hold. */
  predicate WireLegal(e: Entry, swap: bool, bytes: seq<uint8>)
    requires |bytes| == WireSize(e.rtype)
  {
    var n := WireNumber(swap, e.rtype, bytes);
    var free := e.min == 0 && e.max == 0;
    match e.rtype
    case Bool => true
    case Float =>
      && Float32.IsFinite(WireBits(swap, bytes))
      && (free || ((Float32.IsNaN(e.min) || Float32.Value(e.min) <= n)
                   && (Float32.IsNaN(e.max) || n <= Float32.Value(e.max))))
    case U8 | U16 | U32 => Representable(e.rtype, n) && (free || e.min <= n <= e.max)
    case I8 | I16 | I32 => Representable(e.rtype, n) && (free || Signed(e.min) <= n <= Signed(e.max))
  }

  /** What on_write is asked about: any nonzero BOOL is 1, the bits of a FLOAT, a number in two's complement. */
  function Offered(swap: bool, ty: RegType, bytes: seq<uint8>): uint32
    requires |bytes| == WireSize(ty)
  {
    var n := WireNumber(swap, ty, bytes);
    if ty == Bool then (if n == 0 then 0 else 1) else if ty == Float then WireBits(swap, bytes) else Unsigned(n)
  }

  lemma OfferedIs(swap: bool, ty: RegType, bytes: seq<uint8>)
    requires |bytes| == WireSize(ty)
    ensures |bytes| == 2 * WordCount(ty)
    ensures Normal(ty, WordsToRaw(swap, ty, bytes)) == Offered(swap, ty, bytes)
    ensures ty != Bool ==> Number(ty, Offered(swap, ty, bytes)) == WireNumber(swap, ty, bytes)
  {
    WordsAreNumber(swap, ty, bytes);
    RawOffered(ty, WordsToRaw(swap, ty, bytes), WireNumber(swap, ty, bytes), WireBits(swap, bytes));
  }

  lemma RawOffered(ty: RegType, raw: uint32, n: int, bits: uint32)
    requires Number(ty, raw) == n && (ty == Float ==> raw == bits)
    ensures Normal(ty, raw)
         == if ty == Bool then (if n == 0 then 0 else 1) else if ty == Float then bits else Unsigned(n)
  {
    UnsignedSigned(raw);
  }

  lemma WireLegalIs(e: Entry, swap: bool, bytes: seq<uint8>)
    requires |bytes| == WireSize(e.rtype)
    ensures Legal(e, Offered(swap, e.rtype, bytes)) <==> WireLegal(e, swap, bytes)
  {
    OfferedIs(swap, e.rtype, bytes);
  }

  /** The register's hook, if it has one, allows what these bytes stand for. */
  predicate HookAllows(t: Table, h: Hooks, swap: bool, d: Device, i: nat, bytes: seq<uint8>)
    requires i < |t| && |bytes| == WireSize(t[i].rtype)
  {
    t[i].onWrite ==> h.approve(i, Offered(swap, t[i].rtype, bytes), d.cells)
  }

  /** Entry i is writable, the number on the wire legal, and the hook allows it. */
  predicate Writes(t: Table, h: Hooks, swap: bool, d: Device, i: nat, bytes: seq<uint8>)
    requires i < |t| && |bytes| == WireSize(t[i].rtype)
  {
    t[i].perm == RW && WireLegal(t[i], swap, bytes) && HookAllows(t, h, swap, d, i, bytes)
  }

  /** The register holds the number on the wire, a BOOL whether it is nonzero; it is dirty if that is new, and no
      other has changed. */
  ghost predicate Wrote(t: Table, swap: bool, d: Device, d': Device, i: nat, bytes: seq<uint8>)
    requires i < |t| == |d.cells| && |bytes| == WireSize(t[i].rtype)
  {
    var n := WireNumber(swap, t[i].rtype, bytes);
    && |d'.cells| == |t|
    && Number(t[i].rtype, Load(t[i].rtype, d'.cells[i])) == (if t[i].rtype == Bool && n != 0 then 1 else n)
    && (forall j :: 0 <= j < |t| && j != i ==> d'.cells[j] == d.cells[j])
    && d'.dirty == (if Load(t[i].rtype, d'.cells[i]) == Load(t[i].rtype, d.cells[i]) then d.dirty else d.dirty + {i})
  }

  /** One register's words are written exactly when they say something the register takes. */
  lemma WordsWritten(t: Table, h: Hooks, swap: bool, d: Device, i: nat, bytes: seq<uint8>)
    requires ValidDevice(t, d) && i < |t| && |bytes| == WireSize(t[i].rtype)
    ensures |bytes| == 2 * WordCount(t[i].rtype)
    ensures var w := SetRaw(t, h, d, i, WordsToRaw(swap, t[i].rtype, bytes));
      && (w.r == Ok <==> Writes(t, h, swap, d, i, bytes))
      && (if w.r == Ok then Wrote(t, swap, d, w.d, i, bytes) else w.d == d)
  {
    OfferedIs(swap, t[i].rtype, bytes);
    WireLegalIs(t[i], swap, bytes);
    SetRawEffect(t, h, d, i, WordsToRaw(swap, t[i].rtype, bytes));
  }

  /** A write-single to register i: the request comes back exactly when the number on the wire is legal, the
      register writable and its hook agrees, and then the register holds that number; otherwise exception 04,
      and nothing has changed. */
  lemma SingleWriteAnswer(t: Table, h: Hooks, swap: bool, d: Device, pdu: seq<uint8>, i: nat, room: nat)
    requires ValidDevice(t, d) && MapOk(t) && |pdu| == 5 && pdu[0] == 6 && room >= 5
    requires Mapped(t, i) && t[i].modbusAddr == BigEndian(0, 0, pdu[1], pdu[2]) && WireSize(t[i].rtype) == 2
    ensures var r := PduReply(t, h, swap, d, pdu, room, false);
      if Writes(t, h, swap, d, i, pdu[3..]) then r.bytes == pdu && Wrote(t, swap, d, r.d, i, pdu[3..])
      else r == Reply(d, [0x86, 4])
  {
    ErrorCodeIs(6);
    WordIs(pdu[1], pdu[2]);
    var at: uint16 := Word(pdu[1], pdu[2]);
    var e := EntryFrom(t, at, 0);
    if e.Some? { SameStart(t, e.value, i); }
    WordsWritten(t, h, swap, d, i, pdu[3..]);
  }

  /** Where no register of one word starts, exception 02. */
  lemma SingleWriteNowhere(t: Table, h: Hooks, swap: bool, d: Device, pdu: seq<uint8>, room: nat)
    requires |d.cells| == |t| && MapOk(t) && |pdu| == 5 && pdu[0] == 6 && room >= 2
    requires forall i :: Mapped(t, i) && t[i].modbusAddr == BigEndian(0, 0, pdu[1], pdu[2]) ==>
               WireSize(t[i].rtype) == 4
    ensures PduReply(t, h, swap, d, pdu, room, false) == Reply(d, [0x86, 2])
  {
    ErrorCodeIs(6);
    WordIs(pdu[1], pdu[2]);
  }

  /** Quantity, byte count and length of a write-multiple agree. */
  predicate WellFormed(pdu: seq<uint8>) {
    |pdu| >= 6 && var qty := BigEndian(0, 0, pdu[3], pdu[4]);
    1 <= qty <= 123 && pdu[5] == 2 * qty && |pdu| == 6 + 2 * qty
  }

  /** A write-multiple that is not: exception 03. One for a span that is not exactly tiled by registers:
      exception 02. */
  lemma MultipleWriteRefused(t: Table, h: Hooks, swap: bool, d: Device, pdu: seq<uint8>, room: nat)
    requires |d.cells| == |t| && MapOk(t) && pdu != [] && pdu[0] == 16 && room >= 2
    ensures !WellFormed(pdu) ==> PduReply(t, h, swap, d, pdu, room, false) == Reply(d, [0x90, 3])
    ensures WellFormed(pdu) ==>
              var start, qty := BigEndian(0, 0, pdu[1], pdu[2]), BigEndian(0, 0, pdu[3], pdu[4]);
              !Covered(t, start, start + qty) ==>
                PduReply(t, h, swap, d, pdu, room, false) == Reply(d, [0x90, 2])
  {
    ErrorCodeIs(16);
    Props.WriteDispatched(t, h, swap, d, pdu, room);
    if |pdu| >= 6 {
      WordIs(pdu[1], pdu[2]);
      WordIs(pdu[3], pdu[4]);
    }
    if WellFormed(pdu) {
      var start, qty := Word(pdu[1], pdu[2]), Word(pdu[3], pdu[4]);
      Props.WriteUnpacked(t, h, swap, d, pdu, room, start, qty);
    }
  }

  /** The devices in between: register after register takes its words, until one does not. */
  ghost predicate TakenUpTo(t: Table, h: Hooks, swap: bool, tiles: seq<nat>, start: nat, data: seq<uint8>,
                            ds: seq<Device>)
    requires Within(t, tiles, start, |data|)
    decreases |tiles|
  {
    ds != [] && |ds[0].cells| == |t|
    && if tiles == [] then |ds| == 1
       else
         FirstTile(t, tiles, start, data);
         var bytes := Slice(t[tiles[0]], start, data);
         if |ds| == 1 then !Writes(t, h, swap, ds[0], tiles[0], bytes)
         else
           && Writes(t, h, swap, ds[0], tiles[0], bytes) && Wrote(t, swap, ds[0], ds[1], tiles[0], bytes)
           && TakenUpTo(t, h, swap, tiles[1..], start, data, ds[1..])
  }

  lemma FirstTile(t: Table, tiles: seq<nat>, start: nat, data: seq<uint8>)
    requires Within(t, tiles, start, |data|) && tiles != []
    ensures |Slice(t[tiles[0]], start, data)| == WireSize(t[tiles[0]].rtype)
    ensures Within(t, tiles[1..], start, |data|)
  {
    assert forall k :: 0 <= k < |tiles| - 1 ==> tiles[1..][k] == tiles[k + 1];
  }

  lemma {:induction false} WriteTrace(t: Table, h: Hooks, swap: bool, d: Device, tiles: seq<nat>, start: nat,
                                      data: seq<uint8>) returns (ds: seq<Device>)
    requires ValidDevice(t, d) && Within(t, tiles, start, |data|)
    ensures TakenUpTo(t, h, swap, tiles, start, data, ds) && ds[0] == d
    ensures WriteTiles(t, h, swap, d, tiles, start, data) == SpanWritten(ds[|ds| - 1], |ds| > |tiles|)
    decreases |tiles|
  {
    ds := [d];
    if tiles != [] {
      var bytes := Slice(t[tiles[0]], start, data);
      FirstTile(t, tiles, start, data);
      WordsWritten(t, h, swap, d, tiles[0], bytes);
      var raw := WordsToRaw(swap, t[tiles[0]].rtype, bytes);
      WriteStep(t, h, swap, d, tiles, start, data, raw);
      SetRawEffect(t, h, d, tiles[0], raw);
      var w := SetRaw(t, h, d, tiles[0], raw);
      if w.r == Ok {
        var later := WriteTrace(t, h, swap, w.d, tiles[1..], start, data);
        ds := [d] + later;
        assert ds[1..] == later;
      }
    }
  }

  lemma SpanTrace(t: Table, h: Hooks, swap: bool, d: Device, start: nat, end: nat, data: seq<uint8>)
    returns (tiles: seq<nat>, ds: seq<Device>)
    requires ValidDevice(t, d) && MapOk(t) && start <= end && Covered(t, start, end) && |data| == 2 * (end - start)
    ensures Contiguous(t, tiles, start, end) && Within(t, tiles, start, |data|) && tiles == Tiles(t, start, end)
    ensures TakenUpTo(t, h, swap, tiles, start, data, ds) && ds[0] == d
    ensures WriteTiles(t, h, swap, d, tiles, start, data) == SpanWritten(ds[|ds| - 1], |ds| > |tiles|)
  {
    tiles := Tiles(t, start, end);
    TilesContiguous(t, start, end);
    ContiguousWithin(t, tiles, start, start, end);
    ds := WriteTrace(t, h, swap, d, tiles, start, data);
  }

  /** What a write-multiple for a covered span comes to: register after register takes the number the wire has for
      it; the first five bytes of the request come back if all do, exception 04 at the first that does not. */
  ghost predicate CarriedOut(t: Table, h: Hooks, swap: bool, d: Device, pdu: seq<uint8>, start: nat, end: nat,
                             reply: Reply, tiles: seq<nat>, ds: seq<Device>) {
    && |pdu| >= 6 && Contiguous(t, tiles, start, end) && Within(t, tiles, start, |pdu[6..]|)
    && TakenUpTo(t, h, swap, tiles, start, pdu[6..], ds) && ds[0] == d
    && reply == Reply(ds[|ds| - 1], if |ds| > |tiles| then pdu[..5] else [0x90, 4])
  }

  lemma WordsReply(t: Table, h: Hooks, swap: bool, d: Device, pdu: seq<uint8>, start: nat, end: nat, room: nat)
    returns (reply: Reply, tiles: seq<nat>, ds: seq<Device>)
    requires ValidDevice(t, d) && MapOk(t) && start <= end && Covered(t, start, end) && |pdu| == 6 + 2 * (end - start)
    requires room >= 5 && pdu[0] == 16
    ensures reply == WriteWordsReply(t, h, swap, d, pdu, start, end, room, false)
    ensures CarriedOut(t, h, swap, d, pdu, start, end, reply, tiles, ds)
  {
    ErrorCodeIs(16);
    tiles, ds := SpanTrace(t, h, swap, d, start, end, pdu[6..]);
    reply := WriteWordsReply(t, h, swap, d, pdu, start, end, room, false);
  }

  lemma MultipleRuns(t: Table, h: Hooks, swap: bool, d: Device, pdu: seq<uint8>, start: nat, qty: nat, room: nat,
                     reply: Reply)
    requires |d.cells| == |t| && MapOk(t) && WellFormed(pdu) && pdu[0] == 16
    requires start == BigEndian(0, 0, pdu[1], pdu[2]) && qty == BigEndian(0, 0, pdu[3], pdu[4])
    requires reply == WriteWordsReply(t, h, swap, d, pdu, start, start + qty, room, false)
    ensures reply == PduReply(t, h, swap, d, pdu, room, false)
  {
    WordIs(pdu[1], pdu[2]);
    WordIs(pdu[3], pdu[4]);
    Props.WriteRuns(t, h, swap, d, pdu, room, start, qty);
  }

  /** That is what happens to a well-formed one with room for the answer. */
  lemma MultipleWriteAnswer(t: Table, h: Hooks, swap: bool, d: Device, pdu: seq<uint8>, start: nat, qty: nat, room: nat)
    returns (reply: Reply, tiles: seq<nat>, ds: seq<Device>)
    requires ValidDevice(t, d) && MapOk(t) && WellFormed(pdu) && pdu[0] == 16 && room >= 5
    requires start == BigEndian(0, 0, pdu[1], pdu[2]) && qty == BigEndian(0, 0, pdu[3], pdu[4])
    requires Covered(t, start, start + qty)
    ensures CarriedOut(t, h, swap, d, pdu, start, start + qty, reply, tiles, ds)
    ensures reply == PduReply(t, h, swap, d, pdu, room, false)
  {
    reply, tiles, ds := WordsReply(t, h, swap, d, pdu, start, start + qty, room);
    MultipleRuns(t, h, swap, d, pdu, start, qty, room, reply);
  }

  // ----- the envelopes -----

  /** An RTU frame: address, PDU, CRC low byte first. */
  lemma FrameLayout(addr: uint8, pdu: seq<uint8>)
    ensures Crc.Crc16([addr] + pdu) < 0x1_0000
    ensures var crc := Crc.Crc16([addr] + pdu); Framed([addr] + pdu) == [addr] + pdu + [crc % 256, crc / 256]
  {
    Crc.FeedWidth(0xFFFF, Crc.Bits([addr] + pdu));
  }

  /** A TCP ADU (MODBUS Messaging on TCP/IP V1.0b, section 3.1.3): transaction, protocol 0, the number of bytes that
      follow, unit, PDU. */
  lemma AduLayout(transaction: seq<uint8>, unit: uint8, pdu: seq<uint8>)
    requires |transaction| == 2 && |pdu| <= 253
    ensures TcpAdu(transaction, unit, pdu) == transaction + [0, 0, 0, |pdu| + 1, unit] + pdu
  {
    assert WordBytes(|pdu| + 1) == [0, |pdu| + 1];
  }

  /** What the slave does not react to: frames too short, too long, damaged, or for another one. */
  lemma FramesIgnored(t: Table, h: Hooks, swap: bool, addr: uint8, d: Device, frame: seq<uint8>, cap: nat)
    requires |d.cells| == |t| && MapOk(t)
    requires |frame| < 4 || |frame| > 256 || !Crc.Valid(frame) || frame[0] !in {0, addr}
    ensures RtuReply(t, h, swap, addr, d, frame, cap) == Reply(d, [])
  {
  }

  /** And of ADUs: too short, too long, of another protocol, with a length field that is not right, or without room
      for a header. */
  lemma AdusIgnored(t: Table, h: Hooks, swap: bool, d: Device, adu: seq<uint8>, cap: nat)
    requires |d.cells| == |t| && MapOk(t)
    requires |adu| < 8 || |adu| > 260 || adu[2..4] != [0, 0] || BigEndian(0, 0, adu[4], adu[5]) != |adu| - 6 || cap < 7
    ensures TcpReply(t, h, swap, d, adu, cap) == Reply(d, [])
  {
    if |adu| >= 8 {
      WordIs(adu[4], adu[5]);
      if Word(adu[2], adu[3]) == 0 { assert adu[2..4] == [0, 0]; }
    }
  }

  /** A frame for address 0 is for every slave: it is carried out as a broadcast and never answered. */
  lemma FrameToAll(t: Table, h: Hooks, swap: bool, addr: uint8, d: Device, pdu: seq<uint8>, cap: nat)
    requires |d.cells| == |t| && MapOk(t) && 1 <= |pdu| <= 253
    ensures RtuReply(t, h, swap, addr, d, Framed([0] + pdu), cap)
         == Reply(PduReply(t, h, swap, d, pdu, if cap > 3 then cap - 3 else 0, true).d, [])
  {
    var frame := Framed([0] + pdu);
    Props.FramedIsValid([0] + pdu);
    assert frame[0] == 0 && frame[1..|frame| - 2] == pdu;
  }
}
