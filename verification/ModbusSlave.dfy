/** The Modbus slave: one PDU layer, the RTU and TCP envelopes around it, and the class that fills the
    response buffer in place. Section numbers are those of the MODBUS Application Protocol V1.1b3. */
module ModbusSlave {
  import opened Words
  import opened Registers
  import opened ModbusMap
  import Bitwise
  import Crc
  import Core
  import Seqs

  const READ_HOLDING: uint8 := 0x03
  const READ_INPUT: uint8 := 0x04
  const WRITE_SINGLE: uint8 := 0x06
  const WRITE_MULTIPLE: uint8 := 0x10

  const ILLEGAL_FUNCTION: uint8 := 1
  const ILLEGAL_ADDRESS: uint8 := 2
  const ILLEGAL_VALUE: uint8 := 3
  const DEVICE_FAILURE: uint8 := 4

  const MAX_READ_QTY := 125   // sections 6.3 and 6.4
  const MAX_WRITE_QTY := 123  // section 6.12

  // ----- the loops of the handlers, over the tiles of a span -----

  /** Every tile lies in the words from start that |data| bytes describe. */
  ghost predicate Within(t: Table, tiles: seq<nat>, start: nat, size: nat) {
    forall k :: 0 <= k < |tiles| ==>
      Mapped(t, tiles[k]) && start <= t[tiles[k]].modbusAddr && 2 * (End(t[tiles[k]]) - start) <= size
  }

  /** The bytes of one entry in data laid out from word start on. */
  function Slice(e: Entry, start: nat, data: seq<uint8>): (bytes: seq<uint8>)
    requires start <= e.modbusAddr && 2 * (End(e) - start) <= |data|
    ensures |bytes| == 2 * WordCount(e.rtype)
  {
    data[2 * (e.modbusAddr - start)..2 * (End(e) - start)]
  }

  /** The device after a multi-register write, and whether no entry refused. */
  datatype SpanWritten = SpanWritten(d: Device, done: bool)

  /** Write entry after entry; the first refusal stops. */
  function WriteTiles(t: Table, h: Hooks, swap: bool, d: Device, tiles: seq<nat>, start: nat, data: seq<uint8>)
    : (w: SpanWritten)
    requires |d.cells| == |t| && Within(t, tiles, start, |data|)
    ensures |w.d.cells| == |t|
    decreases |tiles|
  {
    if tiles == [] then SpanWritten(d, true)
    else
      var e := t[tiles[0]];
      var w := SetRaw(t, h, d, tiles[0], WordsToRaw(swap, e.rtype, Slice(e, start, data)));
      if w.r != Ok then SpanWritten(w.d, false) else WriteTiles(t, h, swap, w.d, tiles[1..], start, data)
  }

  /** The device after a multi-register read, and the words read. */
  datatype SpanRead = SpanRead(d: Device, bytes: seq<uint8>)

  /** Read entry after entry, running on_read. */
  function ReadTiles(t: Table, h: Hooks, swap: bool, d: Device, tiles: seq<nat>): (r: SpanRead)
    requires |d.cells| == |t| && forall k :: 0 <= k < |tiles| ==> tiles[k] < |t|
    ensures |r.d.cells| == |t|
    decreases |tiles|
  {
    if tiles == [] then SpanRead(d, [])
    else
      var f := GetRaw(t, h, d, tiles[0]);
      var rest := ReadTiles(t, h, swap, f.d, tiles[1..]);
      SpanRead(rest.d, RawToWords(swap, t[tiles[0]].rtype, f.raw) + rest.bytes)
  }

  lemma {:induction false} ContiguousWithin(t: Table, tiles: seq<nat>, start: nat, addr: nat, end: nat)
    requires start <= addr <= end && Contiguous(t, tiles, addr, end)
    ensures Within(t, tiles, start, 2 * (end - start))
    decreases |tiles|
  {
    if tiles != [] {
      ContiguousWithin(t, tiles[1..], start, End(t[tiles[0]]), end);
      assert forall k :: 1 <= k < |tiles| ==> tiles[k] == tiles[1..][k - 1];
    }
  }

  lemma {:induction false} ReadTilesSize(t: Table, h: Hooks, swap: bool, d: Device, tiles: seq<nat>, addr: nat,
                                         end: nat)
    requires |d.cells| == |t| && Contiguous(t, tiles, addr, end)
    ensures |ReadTiles(t, h, swap, d, tiles).bytes| == 2 * (end - addr)
    decreases |tiles|
  {
    if tiles != [] {
      ReadTilesSize(t, h, swap, GetRaw(t, h, d, tiles[0]).d, tiles[1..], End(t[tiles[0]]), end);
    }
  }

  // ----- the PDU layer -----

  /** What a request leads to: the device afterwards and the response, empty for silence. */
  datatype Reply = Reply(d: Device, bytes: seq<uint8>)

  function ErrorCode(fc: uint8): uint8 {
    Bitwise.Widths();
    Bitwise.OrWidth(fc, 0x80, 8);
    Bitwise.Or(fc, 0x80)
  }

  function Exception(d: Device, fc: uint8, code: uint8, room: nat): Reply {
    if room < 2 then Reply(d, []) else Reply(d, [ErrorCode(fc), code])
  }

  /** A well-formed read of qty words. */
  ghost function ReadWordsReply(t: Table, h: Hooks, swap: bool, d: Device, fc: uint8, start: nat, qty: nat,
                                room: nat): Reply
    requires |d.cells| == |t| && qty <= MAX_READ_QTY
  {
    if !Covered(t, start, start + qty) then Exception(d, fc, ILLEGAL_ADDRESS, room)
    else if 2 + 2 * qty > room then Reply(d, [])
    else
      var r := ReadTiles(t, h, swap, d, Tiles(t, start, start + qty));
      Reply(r.d, [fc, 2 * qty] + r.bytes)
  }

  ghost function ReadReply(t: Table, h: Hooks, swap: bool, d: Device, pdu: seq<uint8>, room: nat): Reply
    requires |d.cells| == |t| && pdu != []
  {
    if |pdu| != 5 then Exception(d, pdu[0], ILLEGAL_VALUE, room)
    else
      var start, qty := Word(pdu[1], pdu[2]), Word(pdu[3], pdu[4]);
      if qty < 1 || qty > MAX_READ_QTY then Exception(d, pdu[0], ILLEGAL_VALUE, room)
      else ReadWordsReply(t, h, swap, d, pdu[0], start, qty, room)
  }

  ghost function WriteSingleReply(t: Table, h: Hooks, swap: bool, d: Device, pdu: seq<uint8>, room: nat,
                                  broadcast: bool): Reply
    requires |d.cells| == |t| && pdu != []
  {
    if |pdu| != 5 then Exception(d, pdu[0], ILLEGAL_VALUE, room)
    else
      var found := EntryFrom(t, Word(pdu[1], pdu[2]), 0);
      if found.None? || WordCount(t[found.value].rtype) != 1 then Exception(d, pdu[0], ILLEGAL_ADDRESS, room)
      else if !broadcast && room < 5 then Reply(d, [])
      else
        var w := SetRaw(t, h, d, found.value, WordsToRaw(swap, t[found.value].rtype, pdu[3..]));
        if w.r != Ok then Exception(w.d, pdu[0], DEVICE_FAILURE, room)
        else Reply(w.d, if broadcast then [] else pdu)
  }

  /** The words of a covered span, to be written. */
  ghost function WriteSpanReply(t: Table, h: Hooks, swap: bool, d: Device, pdu: seq<uint8>, start: nat, end: nat,
                                room: nat, broadcast: bool): Reply
    requires |d.cells| == |t| && MapOk(t) && start <= end && Covered(t, start, end) && |pdu| == 6 + 2 * (end - start)
  {
    TilesContiguous(t, start, end);
    ContiguousWithin(t, Tiles(t, start, end), start, start, end);
    var w := WriteTiles(t, h, swap, d, Tiles(t, start, end), start, pdu[6..]);
    if !w.done then Exception(w.d, pdu[0], DEVICE_FAILURE, room)
    else Reply(w.d, if broadcast then [] else pdu[..5])
  }

  /** A well-formed multi-register write. */
  ghost function WriteWordsReply(t: Table, h: Hooks, swap: bool, d: Device, pdu: seq<uint8>, start: nat, end: nat,
                                 room: nat, broadcast: bool): Reply
    requires |d.cells| == |t| && MapOk(t) && start <= end && |pdu| == 6 + 2 * (end - start)
  {
    if !Covered(t, start, end) then Exception(d, pdu[0], ILLEGAL_ADDRESS, room)
    else if !broadcast && room < 5 then Reply(d, [])
    else WriteSpanReply(t, h, swap, d, pdu, start, end, room, broadcast)
  }

  ghost function WriteMultipleReply(t: Table, h: Hooks, swap: bool, d: Device, pdu: seq<uint8>, room: nat,
                                    broadcast: bool): Reply
    requires |d.cells| == |t| && pdu != [] && MapOk(t)
  {
    if !WellFormedWrite(pdu) then Exception(d, pdu[0], ILLEGAL_VALUE, room)
    else
      var start, qty := Word(pdu[1], pdu[2]), Word(pdu[3], pdu[4]);
      WriteWordsReply(t, h, swap, d, pdu, start, start + qty, room, broadcast)
  }

  /** A quantity within bounds, and as many bytes as it and the byte count say. */
  predicate WellFormedWrite(pdu: seq<uint8>) {
    |pdu| >= 6 && var qty := Word(pdu[3], pdu[4]);
    1 <= qty <= MAX_WRITE_QTY && pdu[5] == 2 * qty && |pdu| == 6 + pdu[5]
  }

  /** One request PDU against a device whose map regmb_init accepted, with room for the response. */
  ghost function PduReply(t: Table, h: Hooks, swap: bool, d: Device, pdu: seq<uint8>, room: nat, broadcast: bool): Reply
    requires |d.cells| == |t| && pdu != [] && MapOk(t)
  {
    if pdu[0] == READ_HOLDING || pdu[0] == READ_INPUT then
      if broadcast then Reply(d, []) else ReadReply(t, h, swap, d, pdu, room)
    else if pdu[0] == WRITE_SINGLE then WriteSingleReply(t, h, swap, d, pdu, room, broadcast)
    else if pdu[0] == WRITE_MULTIPLE then WriteMultipleReply(t, h, swap, d, pdu, room, broadcast)
    else if broadcast then Reply(d, [])
    else Exception(d, pdu[0], ILLEGAL_FUNCTION, room)
  }

  lemma ReadReplySize(t: Table, h: Hooks, swap: bool, d: Device, pdu: seq<uint8>, room: nat)
    requires |d.cells| == |t| && pdu != [] && MapOk(t)
    ensures |ReadReply(t, h, swap, d, pdu, room).bytes| <= room
    ensures |ReadReply(t, h, swap, d, pdu, room).bytes| <= 2 + 2 * MAX_READ_QTY
  {
    if |pdu| == 5 && 1 <= Word(pdu[3], pdu[4]) <= MAX_READ_QTY {
      ReadWordsSize(t, h, swap, d, pdu[0], Word(pdu[1], pdu[2]), Word(pdu[3], pdu[4]), room);
    }
  }

  lemma ReadWordsSize(t: Table, h: Hooks, swap: bool, d: Device, fc: uint8, start: nat, qty: nat, room: nat)
    requires |d.cells| == |t| && MapOk(t) && 1 <= qty <= MAX_READ_QTY
    ensures |ReadWordsReply(t, h, swap, d, fc, start, qty, room).bytes| <= room
    ensures |ReadWordsReply(t, h, swap, d, fc, start, qty, room).bytes| <= 2 + 2 * MAX_READ_QTY
  {
    if Covered(t, start, start + qty) {
      TilesContiguous(t, start, start + qty);
      ReadTilesSize(t, h, swap, d, Tiles(t, start, start + qty), start, start + qty);
    }
  }

  lemma WriteReplySize(t: Table, h: Hooks, swap: bool, d: Device, pdu: seq<uint8>, room: nat, broadcast: bool)
    requires |d.cells| == |t| && pdu != [] && MapOk(t)
    ensures |WriteSingleReply(t, h, swap, d, pdu, room, broadcast).bytes| <= 5
    ensures |WriteMultipleReply(t, h, swap, d, pdu, room, broadcast).bytes| <= 5
    ensures |WriteSingleReply(t, h, swap, d, pdu, room, broadcast).bytes| <= room
    ensures |WriteMultipleReply(t, h, swap, d, pdu, room, broadcast).bytes| <= room
  {
  }

  /** A response is never longer than the room for it, nor than the largest read answer. */
  lemma ReplySize(t: Table, h: Hooks, swap: bool, d: Device, pdu: seq<uint8>, room: nat, broadcast: bool)
    requires |d.cells| == |t| && pdu != [] && MapOk(t)
    ensures |PduReply(t, h, swap, d, pdu, room, broadcast).bytes| <= 2 + 2 * MAX_READ_QTY
    ensures |PduReply(t, h, swap, d, pdu, room, broadcast).bytes| <= room
  {
    ReadReplySize(t, h, swap, d, pdu, room);
    WriteReplySize(t, h, swap, d, pdu, room, broadcast);
  }

  // ----- the envelopes -----

  const FRAME_MAX := 256
  const TCP_ADU_MAX := 260

  /** A frame with its CRC, low byte first. */
  function Framed(body: seq<uint8>): seq<uint8> {
    Crc.FeedWidth(0xFFFF, Crc.Bits(body));
    body + [Crc.Crc16(body) % 0x100, Crc.Crc16(body) / 0x100]
  }

  ghost function RtuReply(t: Table, h: Hooks, swap: bool, addr: uint8, d: Device, frame: seq<uint8>, cap: nat): Reply
    requires |d.cells| == |t| && MapOk(t)
  {
    if |frame| < 4 || |frame| > FRAME_MAX || !Crc.Valid(frame) || (frame[0] != 0 && frame[0] != addr) then Reply(d, [])
    else
      RtuAnswer(addr, PduReply(t, h, swap, d, frame[1..|frame| - 2], RtuRoom(cap), frame[0] == 0), frame[0] == 0)
  }

  function RtuRoom(cap: nat): nat {
    if cap > 3 then cap - 3 else 0
  }

  /** The envelope around a response PDU; a broadcast gets none. */
  function RtuAnswer(addr: uint8, r: Reply, broadcast: bool): Reply {
    Reply(r.d, if r.bytes == [] || broadcast then [] else Framed([addr] + r.bytes))
  }

  ghost function TcpReply(t: Table, h: Hooks, swap: bool, d: Device, adu: seq<uint8>, cap: nat): Reply
    requires |d.cells| == |t| && MapOk(t)
  {
    if |adu| < 8 || |adu| > TCP_ADU_MAX || Word(adu[2], adu[3]) != 0 || Word(adu[4], adu[5]) != |adu| - 6
       || cap < 7 then
      Reply(d, [])
    else
      ReplySize(t, h, swap, d, adu[7..], cap - 7, false);
      TcpAnswer(adu[..2], adu[6], PduReply(t, h, swap, d, adu[7..], cap - 7, false))
  }

  /** The same, with transaction and unit identifiers echoed. */
  function TcpAnswer(transaction: seq<uint8>, unit: uint8, r: Reply): Reply
    requires |r.bytes| < 0xFFFF
  {
    Reply(r.d, if r.bytes == [] then [] else TcpAdu(transaction, unit, r.bytes))
  }

  function TcpAdu(transaction: seq<uint8>, unit: uint8, pdu: seq<uint8>): seq<uint8>
    requires |pdu| < 0xFFFF
  {
    transaction + [0, 0] + WordBytes(|pdu| + 1) + [unit] + pdu
  }

  /** What is the same from one place on is the same from a later one on. */
  lemma TailStays(before: seq<uint8>, after: seq<uint8>, from: nat, later: nat)
    requires from <= later <= |before| == |after| && after[from..] == before[from..]
    ensures after[later..] == before[later..]
  {
    assert after[later..] == after[from..][later - from..];
    assert before[later..] == before[from..][later - from..];
  }

  // ----- the adapter -----

  lemma Narrow(at: nat)
    requires at < 0x1_0000
    ensures at % 0x1_0000 == at
  {
  }

  /** The lookup of one turn of either loop: the next tile. */
  method NextTile(t: Table, at: nat, end: nat, ghost left: seq<nat>) returns (i: nat, words: nat)
    requires MapOk(t) && at < end && Contiguous(t, left, at, end)
    ensures left != [] && i == left[0] < |t| && words == WordCount(t[i].rtype) && at == t[i].modbusAddr
    ensures End(t[i]) == at + words <= end && Contiguous(t, left[1..], at + words, end)
  {
    HeadTile(t, left, at, end);
    Narrow(at);
    var e := EntryAt(t, at % 0x1_0000);
    i, words := e.value, WordCount(t[e.value].rtype);
  }

  /** The loop of do_read over the tiles of a covered span. */
  method ReadSpan(table: Core.RegTable, swap: bool, h: Hooks, start: uint16, end: nat, ghost tiles: seq<nat>)
    returns (data: seq<uint8>)
    requires table.Bound() && MapOk(table.entries) && start <= end && Contiguous(table.entries, tiles, start, end)
    modifies table`cells
    ensures table.Bound()
    ensures SpanRead(table.State(), data) == ReadTiles(table.entries, h, swap, old(table.State()), tiles)
  {
    data := [];
    var at: nat := start;
    ghost var left: seq<nat>, whole := tiles, ReadTiles(table.entries, h, swap, table.State(), tiles);
    while at < end
      invariant start <= at <= end && table.Bound() && Contiguous(table.entries, left, at, end)
      invariant ReadTiles(table.entries, h, swap, table.State(), left).d == whole.d
      invariant data + ReadTiles(table.entries, h, swap, table.State(), left).bytes == whole.bytes
      decreases end - at
    {
      var i, words := NextTile(table.entries, at, end, left);
      var raw := table.GetRaw(h, i);
      var bytes := RawToWords(swap, table.entries[i].rtype, raw);
      left := left[1..];
      Seqs.Assoc(data, bytes, ReadTiles(table.entries, h, swap, table.State(), left).bytes);
      data := data + bytes;
      at := at + words;
    }
    assert left == [] && data + [] == data;
  }

  /** One turn of the write loop. */
  lemma WriteStep(t: Table, h: Hooks, swap: bool, d: Device, left: seq<nat>, start: nat, data: seq<uint8>, raw: uint32)
    requires |d.cells| == |t| && left != [] && Within(t, left, start, |data|)
    requires raw == WordsToRaw(swap, t[left[0]].rtype, Slice(t[left[0]], start, data))
    ensures Within(t, left[1..], start, |data|)
    ensures var w := SetRaw(t, h, d, left[0], raw);
      WriteTiles(t, h, swap, d, left, start, data)
      == if w.r != Ok then SpanWritten(w.d, false) else WriteTiles(t, h, swap, w.d, left[1..], start, data)
  {
  }

  /** One turn of the write loop. */
  method WriteNext(table: Core.RegTable, swap: bool, h: Hooks, start: uint16, at: nat, end: nat, data: seq<uint8>,
                   ghost left: seq<nat>) returns (ok: bool, next: nat)
    requires table.Bound() && MapOk(table.entries) && start <= at < end && Contiguous(table.entries, left, at, end)
    requires |data| == 2 * (end - start) && Within(table.entries, left, start, |data|)
    modifies table`cells, table`dirty
    ensures table.Bound() && at < next <= end && left != []
    ensures Contiguous(table.entries, left[1..], next, end) && Within(table.entries, left[1..], start, |data|)
    ensures WriteTiles(table.entries, h, swap, old(table.State()), left, start, data)
         == if ok then WriteTiles(table.entries, h, swap, table.State(), left[1..], start, data)
            else SpanWritten(table.State(), false)
  {
    var i, words := NextTile(table.entries, at, end, left);
    var bytes := data[2 * (at - start)..2 * (at - start) + 2 * words];
    var raw := WordsToRaw(swap, table.entries[i].rtype, bytes);
    WriteStep(table.entries, h, swap, table.State(), left, start, data, raw);
    var r := table.SetRaw(h, i, raw);
    return r == Ok, at + words;
  }

  /** The loop of do_write_multiple over the tiles of a covered span. */
  method WriteSpan(table: Core.RegTable, swap: bool, h: Hooks, start: uint16, end: nat, data: seq<uint8>,
                   ghost tiles: seq<nat>) returns (done: bool)
    requires table.Bound() && MapOk(table.entries) && start <= end && Contiguous(table.entries, tiles, start, end)
    requires |data| == 2 * (end - start) && Within(table.entries, tiles, start, |data|)
    modifies table`cells, table`dirty
    ensures table.Bound()
    ensures SpanWritten(table.State(), done)
         == WriteTiles(table.entries, h, swap, old(table.State()), tiles, start, data)
  {
    var at: nat := start;
    ghost var left := tiles;
    while at < end
      invariant start <= at <= end && table.Bound() && Contiguous(table.entries, left, at, end)
      invariant Within(table.entries, left, start, |data|)
      invariant WriteTiles(table.entries, h, swap, table.State(), left, start, data)
             == WriteTiles(table.entries, h, swap, old(table.State()), tiles, start, data)
      decreases end - at
    {
      var ok;
      ok, at := WriteNext(table, swap, h, start, at, end, data, left);
      if !ok { return false; }
      left := left[1..];
    }
    return true;
  }

  /** pdu_exception */
  function ExceptionPdu(fc: uint8, code: uint8, room: nat): seq<uint8> {
    if room < 2 then [] else [ErrorCode(fc), code]
  }

  /** do_read */
  method DoRead(table: Core.RegTable, swap: bool, h: Hooks, pdu: seq<uint8>, room: nat) returns (out: seq<uint8>)
    requires table.Bound() && MapOk(table.entries) && pdu != []
    modifies table`cells
    ensures table.Bound()
    ensures Reply(table.State(), out) == ReadReply(table.entries, h, swap, old(table.State()), pdu, room)
  {
    var fc := pdu[0];
    if |pdu| != 5 { return ExceptionPdu(fc, ILLEGAL_VALUE, room); }
    var start, qty := Word(pdu[1], pdu[2]), Word(pdu[3], pdu[4]);
    if qty < 1 || qty > MAX_READ_QTY { return ExceptionPdu(fc, ILLEGAL_VALUE, room); }
    out := ReadWords(table, swap, h, fc, start, qty, room);
  }

  /** The rest of do_read, for a well-formed request. */
  method ReadWords(table: Core.RegTable, swap: bool, h: Hooks, fc: uint8, start: uint16, qty: nat, room: nat)
    returns (out: seq<uint8>)
    requires table.Bound() && MapOk(table.entries) && 1 <= qty <= MAX_READ_QTY
    modifies table`cells
    ensures table.Bound()
    ensures Reply(table.State(), out)
         == ReadWordsReply(table.entries, h, swap, old(table.State()), fc, start, qty, room)
  {
    var covered := SpanCovered(table.entries, start, qty);
    if !covered { return ExceptionPdu(fc, ILLEGAL_ADDRESS, room); }
    if 2 + 2 * qty > room { return []; }
    TilesContiguous(table.entries, start, start + qty);
    var data := ReadSpan(table, swap, h, start, start + qty, Tiles(table.entries, start, start + qty));
    return [fc, 2 * qty] + data;
  }

  /** do_write_single: the response must be deliverable before any state changes. */
  method DoWriteSingle(table: Core.RegTable, swap: bool, h: Hooks, pdu: seq<uint8>, room: nat, broadcast: bool)
    returns (out: seq<uint8>)
    requires table.Bound() && MapOk(table.entries) && pdu != []
    modifies table`cells, table`dirty
    ensures table.Bound()
    ensures Reply(table.State(), out)
         == WriteSingleReply(table.entries, h, swap, old(table.State()), pdu, room, broadcast)
  {
    if |pdu| != 5 { return ExceptionPdu(pdu[0], ILLEGAL_VALUE, room); }
    var e := EntryAt(table.entries, Word(pdu[1], pdu[2]));
    if e.None? || WordCount(table.entries[e.value].rtype) != 1 { return ExceptionPdu(pdu[0], ILLEGAL_ADDRESS, room); }
    if !broadcast && room < 5 { return []; }
    var r := table.SetRaw(h, e.value, WordsToRaw(swap, table.entries[e.value].rtype, pdu[3..]));
    if r != Ok { return ExceptionPdu(pdu[0], DEVICE_FAILURE, room); }
    if broadcast { return []; }
    return pdu;
  }

  /** do_write_multiple */
  method DoWriteMultiple(table: Core.RegTable, swap: bool, h: Hooks, pdu: seq<uint8>, room: nat, broadcast: bool)
    returns (out: seq<uint8>)
    requires table.Bound() && MapOk(table.entries) && pdu != []
    modifies table`cells, table`dirty
    ensures table.Bound()
    ensures Reply(table.State(), out)
         == WriteMultipleReply(table.entries, h, swap, old(table.State()), pdu, room, broadcast)
  {
    var fine := CheckWrite(pdu);
    if !fine { return ExceptionPdu(pdu[0], ILLEGAL_VALUE, room); }
    out := WriteWords(table, swap, h, pdu, Word(pdu[1], pdu[2]), Word(pdu[3], pdu[4]), room, broadcast);
  }

  /** The tests at its head. */
  method CheckWrite(pdu: seq<uint8>) returns (fine: bool)
    ensures fine <==> WellFormedWrite(pdu)
  {
    if |pdu| < 6 { return false; }
    var qty, bytes := Word(pdu[3], pdu[4]), pdu[5];
    if qty < 1 || qty > MAX_WRITE_QTY || bytes != 2 * qty || |pdu| != 6 + bytes { return false; }
    return true;
  }

  /** The rest of do_write_multiple, for a well-formed request. */
  method WriteWords(table: Core.RegTable, swap: bool, h: Hooks, pdu: seq<uint8>, start: uint16, qty: nat, room: nat,
                    broadcast: bool) returns (out: seq<uint8>)
    requires table.Bound() && MapOk(table.entries) && 1 <= qty <= MAX_WRITE_QTY && |pdu| == 6 + 2 * qty
    modifies table`cells, table`dirty
    ensures table.Bound()
    ensures Reply(table.State(), out)
         == WriteWordsReply(table.entries, h, swap, old(table.State()), pdu, start, start + qty, room, broadcast)
  {
    var covered := SpanCovered(table.entries, start, qty);
    if !covered { return ExceptionPdu(pdu[0], ILLEGAL_ADDRESS, room); }
    if !broadcast && room < 5 { return []; }
    ghost var tiles := Tiles(table.entries, start, start + qty);
    TilesContiguous(table.entries, start, start + qty);
    ContiguousWithin(table.entries, tiles, start, start, start + qty);
    var done := WriteSpan(table, swap, h, start, start + qty, pdu[6..], tiles);
    if !done { return ExceptionPdu(pdu[0], DEVICE_FAILURE, room); }
    if broadcast { return []; }
    return pdu[..5];
  }

  /** pdu_handle */
  method PduHandle(table: Core.RegTable, swap: bool, h: Hooks, pdu: seq<uint8>, room: nat, broadcast: bool)
    returns (out: seq<uint8>)
    requires table.Bound() && MapOk(table.entries) && pdu != []
    modifies table`cells, table`dirty
    ensures table.Bound()
    ensures Reply(table.State(), out) == PduReply(table.entries, h, swap, old(table.State()), pdu, room, broadcast)
  {
    if pdu[0] == READ_HOLDING || pdu[0] == READ_INPUT {
      if broadcast { return []; }
      out := DoRead(table, swap, h, pdu, room);
    } else if pdu[0] == WRITE_SINGLE {
      out := DoWriteSingle(table, swap, h, pdu, room, broadcast);
    } else if pdu[0] == WRITE_MULTIPLE {
      out := DoWriteMultiple(table, swap, h, pdu, room, broadcast);
    } else {
      if broadcast { return []; }
      out := ExceptionPdu(pdu[0], ILLEGAL_FUNCTION, room);
    }
  }

  /** Store bytes in the caller's buffer from `at` on, leaving the rest of it alone. */
  method Put(resp: array<uint8>, at: nat, bytes: seq<uint8>)
    requires at + |bytes| <= resp.Length
    modifies resp
    ensures resp[..] == old(resp[..at]) + bytes + old(resp[at + |bytes|..])
  {
    for k := 0 to |bytes|
      invariant resp[..at] == old(resp[..at]) && resp[at..at + k] == bytes[..k]
      invariant resp[at + |bytes|..] == old(resp[at + |bytes|..])
    {
      resp[at + k] := bytes[k];
    }
    assert resp[..] == resp[..at] + resp[at..at + |bytes|] + resp[at + |bytes|..];
  }

  class RegModbus {
    var table: Core.RegTable
    var addr: uint8
    var wordSwap: bool

    constructor (table: Core.RegTable)
      ensures this.table == table
    {
      this.table := table;
      addr := 0;
      wordSwap := false;
    }

    /** regmb_init: accepts exactly a unicast address and a map without overlaps or overruns. */
    method Init(table: Core.RegTable, addr: uint8) returns (r: RegResult)
      requires table.Bound()
      modifies this
      ensures r == if 1 <= addr <= 247 && MapOk(table.entries) then Ok else TableError
      ensures r == Ok ==> this.table == table && this.addr == addr && !wordSwap
    {
      if addr < 1 || addr > 247 { return TableError; }
      this.table := table;
      this.addr := addr;
      wordSwap := false;
      r := CheckMap(table.entries);
    }

    ghost predicate Ready()
      reads this, table
    {
      table.Bound() && MapOk(table.entries)
    }

    /** regmb_process: one RTU frame in, the response in resp, its length out. Nothing beyond the capacity is
        touched, and nothing beyond the response except by a refused broadcast, which leaves its exception. */
    method Process(h: Hooks, frame: seq<uint8>, resp: array<uint8>, cap: uint16) returns (n: nat)
      requires Ready() && cap <= resp.Length
      modifies resp, table`cells, table`dirty
      ensures table.Bound() && n <= cap
      ensures Reply(table.State(), resp[..n])
           == RtuReply(table.entries, h, wordSwap, addr, old(table.State()), frame, cap)
      ensures resp[cap..] == old(resp[cap..]) && ((|frame| >= 4 && frame[0] == 0) || resp[n..] == old(resp[n..]))
    {
      if |frame| < 4 || |frame| > FRAME_MAX { return 0; }
      var crc := Crc.Compute(frame[..|frame| - 2]);
      if frame[|frame| - 2] != crc % 0x100 || frame[|frame| - 1] != crc / 0x100 { return 0; }
      var broadcast := frame[0] == 0;
      if !broadcast && frame[0] != addr { return 0; }
      n := Answer(h, frame[1..|frame| - 2], resp, cap, broadcast);
    }

    /** The PDU of a frame meant for this slave, and its answer in its envelope. */
    method Answer(h: Hooks, pdu: seq<uint8>, resp: array<uint8>, cap: uint16, broadcast: bool) returns (n: nat)
      requires Ready() && cap <= resp.Length && 1 <= |pdu| <= FRAME_MAX
      modifies resp, table`cells, table`dirty
      ensures table.Bound() && n <= cap
      ensures Reply(table.State(), resp[..n])
           == RtuAnswer(addr, PduReply(table.entries, h, wordSwap, old(table.State()), pdu, RtuRoom(cap), broadcast),
                        broadcast)
      ensures resp[cap..] == old(resp[cap..]) && (broadcast || resp[n..] == old(resp[n..]))
    {
      var room := if cap > 3 then cap - 3 else 0;
      ReplySize(table.entries, h, wordSwap, table.State(), pdu, room, broadcast);
      var out := PduHandle(table, wordSwap, h, pdu, room, broadcast);
      n := Envelop(resp, out, broadcast);
      TailStays(old(resp[..]), resp[..], if broadcast && out != [] then |out| + 1 else n, cap);
    }

    /** The RTU envelope around a response PDU, or around an exception to a broadcast, which is not sent. */
    method Envelop(resp: array<uint8>, out: seq<uint8>, broadcast: bool) returns (n: nat)
      requires out == [] || |out| + 3 <= resp.Length
      modifies resp
      ensures n == if out == [] || broadcast then 0 else |out| + 3
      ensures n > 0 ==> resp[..n] == Framed([addr] + out)
      ensures if broadcast && out != [] then resp[|out| + 1..] == old(resp[|out| + 1..])
              else resp[n..] == old(resp[n..])
    {
      if out == [] { return 0; }
      if broadcast {
        Put(resp, 1, out);
        return 0;
      }
      var outCrc := Crc.Compute([addr] + out);
      Put(resp, 0, [addr] + out + [outCrc % 0x100, outCrc / 0x100]);
      return |out| + 3;
    }

    /** regmb_process_tcp: one ADU in, the response in resp, its length out. */
    method ProcessTcp(h: Hooks, adu: seq<uint8>, resp: array<uint8>, cap: uint16) returns (n: nat)
      requires Ready() && cap <= resp.Length
      modifies resp, table`cells, table`dirty
      ensures table.Bound() && n <= cap
      ensures Reply(table.State(), resp[..n]) == TcpReply(table.entries, h, wordSwap, old(table.State()), adu, cap)
      ensures resp[n..] == old(resp[n..])
    {
      if |adu| < 8 || |adu| > TCP_ADU_MAX { return 0; }
      if Word(adu[2], adu[3]) != 0 { return 0; }
      if Word(adu[4], adu[5]) != |adu| - 6 { return 0; }
      if cap < 7 { return 0; }
      ReplySize(table.entries, h, wordSwap, table.State(), adu[7..], cap - 7, false);
      var out := PduHandle(table, wordSwap, h, adu[7..], cap - 7, false);
      if out == [] { return 0; }
      Put(resp, 0, adu[..2] + [0, 0] + WordBytes(|out| + 1) + [adu[6]] + out);
      return |out| + 7;
    }
  }
}
