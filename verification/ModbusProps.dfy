/** What a Modbus master can rely on: corrupted frames change nothing, silence means nothing happened,
    a refused multi-register write stopped exactly at the refusal, and what was written reads back. */
module ModbusProps {
  import opened Words
  import opened Registers
  import opened ModbusMap
  import opened ModbusSlave
  import Crc

  // ----- transmission errors -----

  /** A valid frame hit by an odd number of bit errors, or by one burst of at most 16 bits (its CRC bytes
      included), gets no response and changes nothing. */
  lemma CorruptedFrameIgnored(t: Table, h: Hooks, swap: bool, addr: uint8, d: Device, f: seq<uint8>, g: seq<uint8>,
                              cap: nat, from: nat, to: nat)
    requires |d.cells| == |t| && MapOk(t)
    requires |f| == |g| && Crc.Valid(f) && f != g
    requires
      || Crc.OddCount(Crc.Errors(f, g))
      || (from <= to <= 8 * |f| && to - from <= 16
          && forall k :: 0 <= k < 8 * |f| && Crc.Errors(f, g)[k] ==> from <= k < to)
    ensures RtuReply(t, h, swap, addr, d, g, cap) == Reply(d, [])
  {
    if Crc.OddCount(Crc.Errors(f, g)) {
      Crc.OddErrorsDetected(f, g);
    } else {
      Crc.BurstDetected(f, g, from, to);
    }
  }

  lemma FramedIsValid(body: seq<uint8>)
    ensures Crc.Valid(Framed(body)) && Framed(body)[..|body|] == body
  {
    assert Framed(body)[..|Framed(body)| - 2] == body;
  }

  /** Every RTU response is itself a valid frame from this slave. */
  lemma ResponsesAreValid(t: Table, h: Hooks, swap: bool, addr: uint8, d: Device, frame: seq<uint8>, cap: nat)
    requires |d.cells| == |t| && MapOk(t)
    ensures var out := RtuReply(t, h, swap, addr, d, frame, cap).bytes; out != [] ==> Crc.Valid(out) && out[0] == addr
  {
    var out := RtuReply(t, h, swap, addr, d, frame, cap).bytes;
    if out != [] {
      var room := if cap > 3 then cap - 3 else 0;
      var pdu := PduReply(t, h, swap, d, frame[1..|frame| - 2], room, frame[0] == 0).bytes;
      FramedIsValid([addr] + pdu);
    }
  }

  // ----- silence -----

  /** Without a response nothing at all changed: a write the master cannot hear about does not happen. */
  lemma SilenceMeansNothing(t: Table, h: Hooks, swap: bool, d: Device, pdu: seq<uint8>, room: nat)
    requires |d.cells| == |t| && pdu != [] && MapOk(t)
    ensures PduReply(t, h, swap, d, pdu, room, false).bytes == [] ==> PduReply(t, h, swap, d, pdu, room, false).d == d
  {
  }

  lemma RtuSilence(t: Table, h: Hooks, swap: bool, addr: uint8, d: Device, frame: seq<uint8>, cap: nat)
    requires |d.cells| == |t| && MapOk(t) && (frame == [] || frame[0] != 0)
    ensures var r := RtuReply(t, h, swap, addr, d, frame, cap); r.bytes == [] ==> r.d == d
  {
    if 4 <= |frame| <= FRAME_MAX {
      SilenceMeansNothing(t, h, swap, d, frame[1..|frame| - 2], if cap > 3 then cap - 3 else 0);
    }
  }

  lemma TcpSilence(t: Table, h: Hooks, swap: bool, d: Device, adu: seq<uint8>, cap: nat)
    requires |d.cells| == |t| && MapOk(t)
    ensures var r := TcpReply(t, h, swap, d, adu, cap); r.bytes == [] ==> r.d == d
  {
    if 8 <= |adu| <= TCP_ADU_MAX && cap >= 7 {
      SilenceMeansNothing(t, h, swap, d, adu[7..], cap - 7);
    }
  }

  /** A broadcast is never answered; a broadcast write has the effect of the unicast one with room to
      answer, any other broadcast has none. */
  lemma BroadcastEffect(t: Table, h: Hooks, swap: bool, d: Device, pdu: seq<uint8>, room: nat, unicastRoom: nat)
    requires |d.cells| == |t| && pdu != [] && MapOk(t) && unicastRoom >= 5
    ensures PduReply(t, h, swap, d, pdu, room, true).d
         == if pdu[0] == WRITE_SINGLE || pdu[0] == WRITE_MULTIPLE then
              PduReply(t, h, swap, d, pdu, unicastRoom, false).d
            else d
  {
  }

  // ----- one PDU, two envelopes -----

  lemma WordOfBytes(w: uint16)
    ensures Word(WordBytes(w)[0], WordBytes(w)[1]) == w
  {
  }

  /** An RTU request and its answer carry exactly the PDU exchange. */
  lemma RtuCarries(t: Table, h: Hooks, swap: bool, addr: uint8, d: Device, pdu: seq<uint8>, room: nat)
    requires |d.cells| == |t| && MapOk(t) && 1 <= addr <= 247 && 1 <= |pdu| <= 253
    ensures var r := PduReply(t, h, swap, d, pdu, room, false);
      RtuReply(t, h, swap, addr, d, Framed([addr] + pdu), room + 3)
      == Reply(r.d, if r.bytes == [] then [] else Framed([addr] + r.bytes))
  {
    var frame := Framed([addr] + pdu);
    FramedIsValid([addr] + pdu);
    assert frame[0] == addr && frame[1..|frame| - 2] == pdu;
    if room == 0 { ReplySize(t, h, swap, d, pdu, 0, false); }
  }

  lemma Layout(a: seq<uint8>, c: seq<uint8>, u: uint8, e: seq<uint8>)
    requires |a| == 2 && |c| == 2
    ensures var s := a + [0, 0] + c + [u] + e;
      && |s| == |e| + 7 && s[..2] == a && s[2] == 0 && s[3] == 0 && s[4] == c[0] && s[5] == c[1] && s[6] == u
      && s[7..] == e
  {
  }

  lemma AduFields(transaction: seq<uint8>, unit: uint8, pdu: seq<uint8>)
    requires |transaction| == 2 && |pdu| < 0xFFFF
    ensures var adu := TcpAdu(transaction, unit, pdu);
      && |adu| == |pdu| + 7 && adu[..2] == transaction && adu[6] == unit && adu[7..] == pdu
      && Word(adu[2], adu[3]) == 0 && Word(adu[4], adu[5]) == |pdu| + 1
  {
    var length := WordBytes(|pdu| + 1);
    Layout(transaction, length, unit, pdu);
    WordOfBytes(|pdu| + 1);
    assert Word(length[0], length[1]) == |pdu| + 1;
  }

  /** So do a TCP request and its answer, transaction and unit identifiers echoed. */
  lemma TcpCarries(t: Table, h: Hooks, swap: bool, d: Device, pdu: seq<uint8>, room: nat, transaction: seq<uint8>,
                   unit: uint8)
    requires |d.cells| == |t| && MapOk(t) && 1 <= |pdu| <= 253 && |transaction| == 2
    ensures var r := PduReply(t, h, swap, d, pdu, room, false);
      && |r.bytes| < 0xFFFF
      && TcpReply(t, h, swap, d, TcpAdu(transaction, unit, pdu), room + 7)
         == Reply(r.d, if r.bytes == [] then [] else TcpAdu(transaction, unit, r.bytes))
  {
    AduFields(transaction, unit, pdu);
    ReplySize(t, h, swap, d, pdu, room, false);
    TcpUnpacked(t, h, swap, d, TcpAdu(transaction, unit, pdu), pdu, room, transaction, unit);
  }

  lemma TcpUnpacked(t: Table, h: Hooks, swap: bool, d: Device, adu: seq<uint8>, pdu: seq<uint8>, room: nat,
                    transaction: seq<uint8>, unit: uint8)
    requires |d.cells| == |t| && MapOk(t) && 1 <= |pdu| <= 253
    requires |adu| == |pdu| + 7 && adu[..2] == transaction && adu[6] == unit && adu[7..] == pdu
    requires Word(adu[2], adu[3]) == 0 && Word(adu[4], adu[5]) == |pdu| + 1
    requires |PduReply(t, h, swap, d, pdu, room, false).bytes| < 0xFFFF
    ensures TcpReply(t, h, swap, d, adu, room + 7)
         == TcpAnswer(transaction, unit, PduReply(t, h, swap, d, pdu, room, false))
  {
  }

  /** The same PDU with the same room for the response: same device afterwards, same response PDU, whichever
      envelope carries it. */
  lemma EnvelopesAgree(t: Table, h: Hooks, swap: bool, addr: uint8, d: Device, pdu: seq<uint8>, room: nat,
                       transaction: seq<uint8>, unit: uint8)
    requires |d.cells| == |t| && MapOk(t) && 1 <= addr <= 247
    requires 1 <= |pdu| <= 253 && |transaction| == 2
    ensures
      var rtu := RtuReply(t, h, swap, addr, d, Framed([addr] + pdu), room + 3);
      var tcp := TcpReply(t, h, swap, d, TcpAdu(transaction, unit, pdu), room + 7);
      && rtu.d == tcp.d
      && (rtu.bytes == [] <==> tcp.bytes == [])
      && (rtu.bytes != [] ==> |rtu.bytes| >= 3 && |tcp.bytes| >= 7 && rtu.bytes[1..|rtu.bytes| - 2] == tcp.bytes[7..])
  {
    RtuCarries(t, h, swap, addr, d, pdu, room);
    TcpCarries(t, h, swap, d, pdu, room, transaction, unit);
    var out := PduReply(t, h, swap, d, pdu, room, false).bytes;
    if out != [] {
      AduFields(transaction, unit, out);
      assert Framed([addr] + out)[1..|out| + 1] == out;
    }
  }

  // ----- multi-register writes -----

  /** Tiles of a contiguous span are distinct entries. */
  lemma {:induction false} TilesFollow(t: Table, tiles: seq<nat>, addr: nat, end: nat, k: nat)
    requires Contiguous(t, tiles, addr, end) && k < |tiles|
    ensures Mapped(t, tiles[k]) && addr <= t[tiles[k]].modbusAddr && End(t[tiles[k]]) <= end
    ensures k > 0 ==> End(t[tiles[0]]) <= t[tiles[k]].modbusAddr && tiles[k] != tiles[0]
    decreases |tiles|
  {
    if k > 0 { TilesFollow(t, tiles[1..], End(t[tiles[0]]), end, k - 1); }
    if k == 0 { ContiguousEnd(t, tiles[1..], End(t[tiles[0]]), end); }
  }

  lemma {:induction false} ContiguousEnd(t: Table, tiles: seq<nat>, addr: nat, end: nat)
    requires Contiguous(t, tiles, addr, end)
    ensures addr <= end
    decreases |tiles|
  {
    if tiles != [] { ContiguousEnd(t, tiles[1..], End(t[tiles[0]]), end); }
  }

  function RawAt(t: Table, swap: bool, start: nat, data: seq<uint8>, i: nat): uint32
    requires Mapped(t, i) && start <= t[i].modbusAddr && 2 * (End(t[i]) - start) <= |data|
  {
    WordsToRaw(swap, t[i].rtype, Slice(t[i], start, data))
  }

  /** Entry i holds the value the data has for it. */
  ghost predicate Stored(t: Table, swap: bool, d: Device, start: nat, data: seq<uint8>, i: nat)
    requires |d.cells| == |t| && Mapped(t, i) && start <= t[i].modbusAddr && 2 * (End(t[i]) - start) <= |data|
  {
    Load(t[i].rtype, d.cells[i]) == Normal(t[i].rtype, RawAt(t, swap, start, data, i))
  }

  /** What a multi-register write leaves behind: the first `stop` tiles hold their new values, every other
      entry is as before, and the tile at `stop`, if there is one, is the first that was refused. */
  ghost predicate StoppedAt(t: Table, h: Hooks, swap: bool, d: Device, tiles: seq<nat>, start: nat, data: seq<uint8>,
                            w: SpanWritten, stop: nat)
    requires |d.cells| == |t| == |w.d.cells| && Within(t, tiles, start, |data|)
  {
    && stop <= |tiles| && (w.done <==> stop == |tiles|)
    && (forall k :: 0 <= k < stop ==> Stored(t, swap, w.d, start, data, tiles[k]))
    && (forall i :: 0 <= i < |t| && i !in tiles[..stop] ==> w.d.cells[i] == d.cells[i])
    && (stop < |tiles| ==> SetRaw(t, h, w.d, tiles[stop], RawAt(t, swap, start, data, tiles[stop])).r != Ok)
  }

  lemma {:induction false} WriteStops(t: Table, h: Hooks, swap: bool, d: Device, tiles: seq<nat>, start: nat,
                                      data: seq<uint8>, addr: nat, end: nat) returns (stop: nat)
    requires ValidDevice(t, d) && Within(t, tiles, start, |data|) && Contiguous(t, tiles, addr, end)
    ensures var w := WriteTiles(t, h, swap, d, tiles, start, data);
      ValidDevice(t, w.d) && StoppedAt(t, h, swap, d, tiles, start, data, w, stop)
    decreases |tiles|
  {
    stop := 0;
    if tiles != [] {
      var i, raw := tiles[0], RawAt(t, swap, start, data, tiles[0]);
      SetRawEffect(t, h, d, i, raw);
      WriteStep(t, h, swap, d, tiles, start, data, raw);
      var next := SetRaw(t, h, d, i, raw);
      if next.r == Ok {
        var later := WriteStops(t, h, swap, next.d, tiles[1..], start, data, End(t[i]), end);
        FirstStays(t, tiles, addr, end);
        StoppedLater(t, h, swap, d, tiles, start, data, next.d,
                     WriteTiles(t, h, swap, next.d, tiles[1..], start, data), later);
        stop := later + 1;
      }
    }
  }

  /** One stored tile more in front. */
  lemma StoppedLater(t: Table, h: Hooks, swap: bool, d: Device, tiles: seq<nat>, start: nat, data: seq<uint8>,
                     next: Device, w: SpanWritten, later: nat)
    requires |d.cells| == |t| == |next.cells| == |w.d.cells| && tiles != []
    requires Within(t, tiles, start, |data|) && Within(t, tiles[1..], start, |data|) && tiles[0] !in tiles[1..]
    requires Stored(t, swap, next, start, data, tiles[0])
    requires forall i :: 0 <= i < |t| && i != tiles[0] ==> next.cells[i] == d.cells[i]
    requires StoppedAt(t, h, swap, next, tiles[1..], start, data, w, later)
    ensures StoppedAt(t, h, swap, d, tiles, start, data, w, later + 1)
  {
    assert tiles[..later + 1] == [tiles[0]] + tiles[1..][..later];
    assert forall k :: 1 <= k < |tiles| ==> tiles[k] == tiles[1..][k - 1];
    assert tiles[0] !in tiles[1..][..later];
    assert w.d.cells[tiles[0]] == next.cells[tiles[0]];
  }

  lemma FirstStays(t: Table, tiles: seq<nat>, addr: nat, end: nat)
    requires tiles != [] && Contiguous(t, tiles, addr, end)
    ensures tiles[0] !in tiles[1..]
  {
    forall k | 0 < k < |tiles| ensures tiles[k] != tiles[0] {
      TilesFollow(t, tiles, addr, end, k);
    }
    assert forall k :: 0 <= k < |tiles| - 1 ==> tiles[1..][k] == tiles[k + 1];
  }

  /** A write-multiple request for qty words from start that the slave gets as far as executing. */
  ghost predicate ExecutableWrite(t: Table, pdu: seq<uint8>, start: nat, qty: nat) {
    && 1 <= qty <= MAX_WRITE_QTY && |pdu| == 6 + 2 * qty && pdu[0] == WRITE_MULTIPLE && pdu[5] == 2 * qty
    && start == Word(pdu[1], pdu[2]) && qty == Word(pdu[3], pdu[4]) && Covered(t, start, start + qty)
  }

  lemma WriteRuns(t: Table, h: Hooks, swap: bool, d: Device, pdu: seq<uint8>, room: nat, start: nat, qty: nat)
    requires |d.cells| == |t| && MapOk(t)
    requires 1 <= qty <= MAX_WRITE_QTY && |pdu| == 6 + 2 * qty && pdu[5] == 2 * qty
    requires start == Word(pdu[1], pdu[2]) && qty == Word(pdu[3], pdu[4])
    requires pdu[0] == WRITE_MULTIPLE
    ensures PduReply(t, h, swap, d, pdu, room, false)
         == WriteWordsReply(t, h, swap, d, pdu, start, start + qty, room, false)
  {
    WriteDispatched(t, h, swap, d, pdu, room);
    WriteUnpacked(t, h, swap, d, pdu, room, start, qty);
  }

  lemma WriteDispatched(t: Table, h: Hooks, swap: bool, d: Device, pdu: seq<uint8>, room: nat)
    requires |d.cells| == |t| && MapOk(t) && pdu != [] && pdu[0] == WRITE_MULTIPLE
    ensures PduReply(t, h, swap, d, pdu, room, false) == WriteMultipleReply(t, h, swap, d, pdu, room, false)
  {
  }

  lemma WriteUnpacked(t: Table, h: Hooks, swap: bool, d: Device, pdu: seq<uint8>, room: nat, start: nat, qty: nat)
    requires |d.cells| == |t| && MapOk(t) && WellFormedWrite(pdu)
    requires start == Word(pdu[1], pdu[2]) && qty == Word(pdu[3], pdu[4])
    ensures WriteMultipleReply(t, h, swap, d, pdu, room, false)
         == WriteWordsReply(t, h, swap, d, pdu, start, start + qty, room, false)
  {
  }

  /** Exception 04 to a multi-register write: the entries before the first refused one were written, nothing
      else was; a normal answer: all of them were. */
  lemma MultipleWriteOutcome(t: Table, h: Hooks, swap: bool, d: Device, pdu: seq<uint8>, room: nat, start: nat,
                             qty: nat)
    returns (tiles: seq<nat>, stop: nat, after: Device)
    requires ValidDevice(t, d) && MapOk(t) && ExecutableWrite(t, pdu, start, qty) && room >= 5
    ensures Contiguous(t, tiles, start, start + qty) && Within(t, tiles, start, |pdu[6..]|)
    ensures ValidDevice(t, after)
    ensures StoppedAt(t, h, swap, d, tiles, start, pdu[6..], SpanWritten(after, stop == |tiles|), stop)
    ensures PduReply(t, h, swap, d, pdu, room, false)
         == Reply(after, if stop < |tiles| then [ErrorCode(pdu[0]), DEVICE_FAILURE] else pdu[..5])
  {
    WriteRuns(t, h, swap, d, pdu, room, start, qty);
    tiles, stop, after := WordsOutcome(t, h, swap, d, pdu, room, start, start + qty);
  }

  lemma WordsOutcome(t: Table, h: Hooks, swap: bool, d: Device, pdu: seq<uint8>, room: nat, start: nat, end: nat)
    returns (tiles: seq<nat>, stop: nat, after: Device)
    requires ValidDevice(t, d) && MapOk(t) && start <= end && |pdu| == 6 + 2 * (end - start) && room >= 5
    requires Covered(t, start, end)
    ensures Contiguous(t, tiles, start, end) && Within(t, tiles, start, |pdu[6..]|)
    ensures ValidDevice(t, after)
    ensures StoppedAt(t, h, swap, d, tiles, start, pdu[6..], SpanWritten(after, stop == |tiles|), stop)
    ensures WriteWordsReply(t, h, swap, d, pdu, start, end, room, false)
         == Reply(after, if stop < |tiles| then [ErrorCode(pdu[0]), DEVICE_FAILURE] else pdu[..5])
  {
    TilesContiguous(t, start, end);
    ContiguousWithin(t, Tiles(t, start, end), start, start, end);
    tiles, stop, after := SpanOutcome(t, h, swap, d, start, end, pdu[6..]);
  }

  lemma SpanOutcome(t: Table, h: Hooks, swap: bool, d: Device, start: nat, end: nat, data: seq<uint8>)
    returns (tiles: seq<nat>, stop: nat, after: Device)
    requires ValidDevice(t, d) && start <= end && Contiguous(t, Tiles(t, start, end), start, end)
    requires Within(t, Tiles(t, start, end), start, |data|)
    ensures tiles == Tiles(t, start, end) && ValidDevice(t, after)
    ensures WriteTiles(t, h, swap, d, tiles, start, data) == SpanWritten(after, stop == |tiles|)
    ensures StoppedAt(t, h, swap, d, tiles, start, data, SpanWritten(after, stop == |tiles|), stop)
  {
    tiles := Tiles(t, start, end);
    stop := WriteStops(t, h, swap, d, tiles, start, data, start, end);
    after := WriteTiles(t, h, swap, d, tiles, start, data).d;
  }

  // ----- write, then read -----

  /** What the word w of written data reads back as: a BOOL entry's word becomes 0 or 1. */
  function ReadBack(t: Table, start: nat, data: seq<uint8>, w: nat): (bytes: seq<uint8>)
    requires start <= w < 0x1_0000 && 2 * (w + 1 - start) <= |data|
    ensures |bytes| == 2
  {
    var sent := data[2 * (w - start)..2 * (w - start) + 2];
    var e := EntryFrom(t, w, 0);
    if e.Some? && t[e.value].rtype == Bool then NormalWords(Bool, sent) else sent
  }

  /** Every entry lying wholly inside contiguous tiles is one of them. */
  lemma {:induction false} TilesComplete(t: Table, tiles: seq<nat>, addr: nat, end: nat, i: nat)
    requires MapOk(t) && Contiguous(t, tiles, addr, end)
    requires Mapped(t, i) && addr <= t[i].modbusAddr && End(t[i]) <= end
    ensures i in tiles
    decreases |tiles|
  {
    var head := tiles[0];
    if t[i].modbusAddr < End(t[head]) {
      SameStart(t, head, i);
    } else {
      TilesComplete(t, tiles[1..], End(t[head]), end, i);
    }
  }

  /** bytes are what the words of [addr, end) read back as. */
  ghost predicate AllReadBack(t: Table, start: nat, data: seq<uint8>, bytes: seq<uint8>, addr: nat, end: nat)
    requires start <= addr && end <= 0x1_0000 && 2 * (end - start) <= |data|
  {
    && |bytes| == 2 * (end - addr)
    && forall w :: addr <= w < end ==> bytes[2 * (w - addr)..2 * (w - addr) + 2] == ReadBack(t, start, data, w)
  }

  lemma ReadBackConcat(t: Table, start: nat, data: seq<uint8>, a: seq<uint8>, b: seq<uint8>, addr: nat, mid: nat,
                       end: nat)
    requires start <= addr <= mid <= end <= 0x1_0000 && 2 * (end - start) <= |data|
    requires AllReadBack(t, start, data, a, addr, mid) && AllReadBack(t, start, data, b, mid, end)
    ensures AllReadBack(t, start, data, a + b, addr, end)
  {
    forall w | addr <= w < end
      ensures (a + b)[2 * (w - addr)..2 * (w - addr) + 2] == ReadBack(t, start, data, w)
    {
      if w < mid {
        assert (a + b)[2 * (w - addr)..2 * (w - addr) + 2] == a[2 * (w - addr)..2 * (w - addr) + 2];
      } else {
        assert (a + b)[2 * (w - addr)..2 * (w - addr) + 2] == b[2 * (w - mid)..2 * (w - mid) + 2];
      }
    }
  }

  lemma SliceOfSlice(data: seq<uint8>, from: nat, to: nat, k: nat)
    requires from <= to <= |data| && from + k + 2 <= to
    ensures data[from..to][k..k + 2] == data[from + k..from + k + 2]
  {
    var inner, outer := data[from..to][k..k + 2], data[from + k..from + k + 2];
    assert inner[0] == outer[0] && inner[1] == outer[1];
    assert inner == [inner[0], inner[1]] && outer == [outer[0], outer[1]];
  }

  /** The bytes entry i contributes when read are what its words read back as. */
  lemma EntryReadsBack(t: Table, swap: bool, d: Device, start: nat, data: seq<uint8>, i: nat)
    requires |d.cells| == |t| && MapOk(t) && Mapped(t, i) && start <= t[i].modbusAddr
    requires 2 * (End(t[i]) - start) <= |data|
    requires Stored(t, swap, d, start, data, i)
    ensures AllReadBack(t, start, data, RawToWords(swap, t[i].rtype, Load(t[i].rtype, d.cells[i])),
                        t[i].modbusAddr, End(t[i]))
  {
    var slice := Slice(t[i], start, data);
    WordsRoundTrip(swap, t[i].rtype, slice);
    forall w | t[i].modbusAddr <= w < End(t[i])
      ensures NormalWords(t[i].rtype, slice)[2 * (w - t[i].modbusAddr)..2 * (w - t[i].modbusAddr) + 2]
           == ReadBack(t, start, data, w)
    {
      WordReadsBack(t, start, data, i, w);
    }
  }

  lemma WordReadsBack(t: Table, start: nat, data: seq<uint8>, i: nat, w: nat)
    requires MapOk(t) && Mapped(t, i) && start <= t[i].modbusAddr <= w < End(t[i])
    requires 2 * (End(t[i]) - start) <= |data|
    ensures NormalWords(t[i].rtype, Slice(t[i], start, data))[2 * (w - t[i].modbusAddr)..2 * (w - t[i].modbusAddr) + 2]
         == ReadBack(t, start, data, w)
  {
    var k, e, slice := 2 * (w - t[i].modbusAddr), EntryFrom(t, w, 0), Slice(t[i], start, data);
    var sent := data[2 * (w - start)..2 * (w - start) + 2];
    SliceOfSlice(data, 2 * (t[i].modbusAddr - start), 2 * (End(t[i]) - start), k);
    assert slice[k..k + 2] == sent;
    if e.Some? { SameStart(t, i, e.value); }
    if t[i].rtype == Bool {
      assert slice == slice[0..2];
      assert NormalWords(Bool, slice) == NormalWords(Bool, slice)[0..2];
    }
  }

  /** Reading contiguous tiles that hold the written values, none with on_read: the device is untouched and
      every word is what was written, normalised. */
  lemma {:induction false} TilesReadBack(t: Table, h: Hooks, swap: bool, d: Device, tiles: seq<nat>, addr: nat,
                                         end: nat, start: nat, data: seq<uint8>)
    requires |d.cells| == |t| && MapOk(t) && Contiguous(t, tiles, addr, end) && Within(t, tiles, start, |data|)
    requires start <= addr <= end <= 0x1_0000 && 2 * (end - start) <= |data|
    requires forall k :: 0 <= k < |tiles| ==> Stored(t, swap, d, start, data, tiles[k]) && !t[tiles[k]].onRead
    ensures var r := ReadTiles(t, h, swap, d, tiles); r.d == d && AllReadBack(t, start, data, r.bytes, addr, end)
    decreases |tiles|
  {
    if tiles != [] {
      var i := tiles[0];
      ContiguousEnd(t, tiles[1..], End(t[i]), end);
      assert forall k :: 0 <= k < |tiles| - 1 ==> tiles[1..][k] == tiles[k + 1];
      TilesReadBack(t, h, swap, d, tiles[1..], End(t[i]), end, start, data);
      EntryReadsBack(t, swap, d, start, data, i);
      ReadBackConcat(t, start, data, RawToWords(swap, t[i].rtype, Load(t[i].rtype, d.cells[i])),
                     ReadTiles(t, h, swap, d, tiles[1..]).bytes, addr, End(t[i]), end);
    }
  }

  /** No entry of the span has an on_read hook. */
  ghost predicate Plain(t: Table, start: nat, end: nat) {
    forall i :: Mapped(t, i) && start <= t[i].modbusAddr && End(t[i]) <= end ==> !t[i].onRead
  }

  /** The request a master sends to read qty words from start. */
  function ReadRequest(fc: uint8, start: uint16, qty: uint16): seq<uint8> {
    [fc] + WordBytes(start) + WordBytes(qty)
  }

  /** A device whose tiles between start and start + qty hold the values the data has for them. */
  ghost predicate SpanStored(t: Table, swap: bool, d: Device, start: nat, end: nat, data: seq<uint8>)
    requires |d.cells| == |t| && 2 * (end - start) <= |data|
  {
    forall i :: Mapped(t, i) && start <= t[i].modbusAddr && End(t[i]) <= end ==>
      !t[i].onRead && Stored(t, swap, d, start, data, i)
  }

  lemma AllTilesStored(t: Table, h: Hooks, swap: bool, d: Device, tiles: seq<nat>, start: nat, end: nat,
                       data: seq<uint8>, after: Device)
    requires |d.cells| == |t| == |after.cells| && MapOk(t) && Contiguous(t, tiles, start, end) && Plain(t, start, end)
    requires 2 * (end - start) <= |data| && Within(t, tiles, start, |data|)
    requires forall k :: 0 <= k < |tiles| ==> Stored(t, swap, after, start, data, tiles[k])
    ensures SpanStored(t, swap, after, start, end, data)
  {
    forall i | Mapped(t, i) && start <= t[i].modbusAddr && End(t[i]) <= end
      ensures Stored(t, swap, after, start, data, i)
    {
      TilesComplete(t, tiles, start, end, i);
    }
  }

  /** Reading any covered part of such a span. */
  lemma StoredTilesRead(t: Table, g: Hooks, swap: bool, d: Device, start: nat, end: nat, data: seq<uint8>,
                        from: nat, to: nat)
    requires |d.cells| == |t| && MapOk(t) && 2 * (end - start) <= |data| && SpanStored(t, swap, d, start, end, data)
    requires start <= from < to <= end && Covered(t, from, to)
    ensures to <= 0x1_0000
    ensures var r := ReadTiles(t, g, swap, d, Tiles(t, from, to));
      r.d == d && AllReadBack(t, start, data, r.bytes, from, to)
  {
    var part := Tiles(t, from, to);
    TilesContiguous(t, from, to);
    ContiguousWithin(t, part, start, from, to);
    forall k | 0 <= k < |part|
      ensures Stored(t, swap, d, start, data, part[k]) && !t[part[k]].onRead
    {
      TilesFollow(t, part, from, to, k);
    }
    TilesReadBack(t, g, swap, d, part, from, to, start, data);
  }

  lemma RequestFields(fc: uint8, from: uint16, count: uint16)
    ensures var pdu := ReadRequest(fc, from, count);
      |pdu| == 5 && pdu[0] == fc && Word(pdu[1], pdu[2]) == from && Word(pdu[3], pdu[4]) == count
  {
    var pdu := ReadRequest(fc, from, count);
    assert pdu[1] == WordBytes(from)[0] && pdu[2] == WordBytes(from)[1];
    assert pdu[3] == WordBytes(count)[0] && pdu[4] == WordBytes(count)[1];
    WordOfBytes(from);
    WordOfBytes(count);
  }

  /** A read request (function code 3 or 4) for a covered span, with room for the answer. */
  lemma ReadExecuted(t: Table, g: Hooks, swap: bool, d: Device, fc: uint8, from: uint16, count: uint16, room: nat)
    requires |d.cells| == |t| && MapOk(t)
    requires fc == READ_HOLDING || fc == READ_INPUT
    requires 1 <= count <= MAX_READ_QTY && room >= 2 + 2 * count && Covered(t, from, from + count)
    ensures var r := ReadTiles(t, g, swap, d, Tiles(t, from, from + count));
      ReadReply(t, g, swap, d, ReadRequest(fc, from, count), room) == Reply(r.d, [fc, 2 * count] + r.bytes)
  {
    RequestFields(fc, from, count);
    ReadUnpacked(t, g, swap, d, ReadRequest(fc, from, count), fc, from, count, room);
  }

  lemma ReadUnpacked(t: Table, g: Hooks, swap: bool, d: Device, pdu: seq<uint8>, fc: uint8, from: uint16, count: uint16,
                     room: nat)
    requires |d.cells| == |t| && 1 <= count <= MAX_READ_QTY
    requires |pdu| == 5 && pdu[0] == fc && Word(pdu[1], pdu[2]) == from && Word(pdu[3], pdu[4]) == count
    ensures ReadReply(t, g, swap, d, pdu, room) == ReadWordsReply(t, g, swap, d, fc, from, count, room)
  {
  }

  /** After a normally answered write-multiple, reading any covered part of what was written changes nothing
      and returns the bytes written, BOOL words as 0 or 1; both word orders, all types. */
  lemma WriteThenRead(t: Table, h: Hooks, g: Hooks, swap: bool, d: Device, pdu: seq<uint8>, room: nat, start: nat,
                      qty: nat, fc: uint8, from: uint16, count: uint16, readRoom: nat)
    returns (after: Device, data: seq<uint8>)
    requires ValidDevice(t, d) && MapOk(t) && ExecutableWrite(t, pdu, start, qty) && Plain(t, start, start + qty)
    requires PduReply(t, h, swap, d, pdu, room, false).bytes == pdu[..5]
    requires fc == READ_HOLDING || fc == READ_INPUT
    requires start <= from && from + count <= start + qty && 1 <= count && readRoom >= 2 + 2 * count
    requires Covered(t, from, from + count)
    ensures PduReply(t, h, swap, d, pdu, room, false) == Reply(after, pdu[..5])
    ensures PduReply(t, g, swap, after, ReadRequest(fc, from, count), readRoom, false)
         == Reply(after, [fc, 2 * count] + data)
    ensures from + count <= 0x1_0000 && AllReadBack(t, start, pdu[6..], data, from, from + count)
  {
    after := AnsweredWrite(t, h, swap, d, pdu, room, start, qty);
    data := StoredIsRead(t, g, swap, after, start, start + qty, pdu[6..], fc, from, count, readRoom);
  }

  lemma StoredIsRead(t: Table, g: Hooks, swap: bool, d: Device, start: nat, end: nat, written: seq<uint8>, fc: uint8,
                     from: uint16, count: uint16, room: nat) returns (data: seq<uint8>)
    requires |d.cells| == |t| && MapOk(t) && 2 * (end - start) <= |written|
    requires SpanStored(t, swap, d, start, end, written) && Plain(t, start, end)
    requires fc == READ_HOLDING || fc == READ_INPUT
    requires start <= from && from + count <= end && 1 <= count <= MAX_READ_QTY && room >= 2 + 2 * count
    requires Covered(t, from, from + count)
    ensures PduReply(t, g, swap, d, ReadRequest(fc, from, count), room, false) == Reply(d, [fc, 2 * count] + data)
    ensures from + count <= 0x1_0000 && AllReadBack(t, start, written, data, from, from + count)
  {
    StoredTilesRead(t, g, swap, d, start, end, written, from, from + count);
    ReadDispatched(t, g, swap, d, fc, from, count, room);
    data := ReadTiles(t, g, swap, d, Tiles(t, from, from + count)).bytes;
  }

  /** Tiles written without a refusal all hold what was written. */
  lemma DoneIsStored(t: Table, h: Hooks, swap: bool, d: Device, start: nat, end: nat, data: seq<uint8>)
    requires ValidDevice(t, d) && MapOk(t) && start <= end && Contiguous(t, Tiles(t, start, end), start, end)
    requires Plain(t, start, end) && 2 * (end - start) <= |data| && Within(t, Tiles(t, start, end), start, |data|)
    requires WriteTiles(t, h, swap, d, Tiles(t, start, end), start, data).done
    ensures SpanStored(t, swap, WriteTiles(t, h, swap, d, Tiles(t, start, end), start, data).d, start, end, data)
  {
    var tiles, stop, after := SpanOutcome(t, h, swap, d, start, end, data);
    AllTilesStored(t, h, swap, d, tiles, start, end, data, after);
  }

  /** An answer of five bytes is not an exception. */
  lemma DoneIfAnswered(reply: Reply, w: SpanWritten, exception: seq<uint8>, pdu: seq<uint8>)
    requires |exception| == 2 && |pdu| >= 6 && reply.bytes == pdu[..5]
    requires reply == Reply(w.d, if w.done then pdu[..5] else exception)
    ensures w.done && reply == Reply(w.d, pdu[..5])
  {
  }

  lemma RoomIfAnswered(t: Table, h: Hooks, swap: bool, d: Device, pdu: seq<uint8>, room: nat)
    requires |d.cells| == |t| && MapOk(t) && |pdu| >= 6 && PduReply(t, h, swap, d, pdu, room, false).bytes == pdu[..5]
    ensures room >= 5
  {
    ReplySize(t, h, swap, d, pdu, room, false);
  }

  lemma AnsweredWrite(t: Table, h: Hooks, swap: bool, d: Device, pdu: seq<uint8>, room: nat, start: nat, qty: nat)
    returns (after: Device)
    requires ValidDevice(t, d) && MapOk(t) && ExecutableWrite(t, pdu, start, qty) && Plain(t, start, start + qty)
    requires PduReply(t, h, swap, d, pdu, room, false).bytes == pdu[..5]
    ensures |after.cells| == |t| && PduReply(t, h, swap, d, pdu, room, false) == Reply(after, pdu[..5])
    ensures SpanStored(t, swap, after, start, start + qty, pdu[6..])
  {
    RoomIfAnswered(t, h, swap, d, pdu, room);
    WriteRuns(t, h, swap, d, pdu, room, start, qty);
    after := AnsweredWords(t, h, swap, d, pdu, room, start, start + qty,
                           PduReply(t, h, swap, d, pdu, room, false));
  }

  lemma AnsweredWords(t: Table, h: Hooks, swap: bool, d: Device, pdu: seq<uint8>, room: nat, start: nat, end: nat,
                      reply: Reply) returns (after: Device)
    requires ValidDevice(t, d) && MapOk(t) && start <= end && |pdu| == 6 + 2 * (end - start)
    requires Covered(t, start, end) && Plain(t, start, end) && room >= 5
    requires reply == WriteWordsReply(t, h, swap, d, pdu, start, end, room, false) && reply.bytes == pdu[..5]
    ensures |after.cells| == |t| && reply == Reply(after, pdu[..5])
    ensures SpanStored(t, swap, after, start, end, pdu[6..])
  {
    TilesContiguous(t, start, end);
    ContiguousWithin(t, Tiles(t, start, end), start, start, end);
    var w := WriteTiles(t, h, swap, d, Tiles(t, start, end), start, pdu[6..]);
    DoneIfAnswered(WriteSpanReply(t, h, swap, d, pdu, start, end, room, false), w,
                   [ErrorCode(pdu[0]), DEVICE_FAILURE], pdu);
    DoneIsStored(t, h, swap, d, start, end, pdu[6..]);
    after := w.d;
  }

  lemma ReadDispatched(t: Table, g: Hooks, swap: bool, d: Device, fc: uint8, from: uint16, count: uint16, room: nat)
    requires |d.cells| == |t| && MapOk(t)
    requires fc == READ_HOLDING || fc == READ_INPUT
    requires 1 <= count <= MAX_READ_QTY && room >= 2 + 2 * count && Covered(t, from, from + count)
    ensures var r := ReadTiles(t, g, swap, d, Tiles(t, from, from + count));
      PduReply(t, g, swap, d, ReadRequest(fc, from, count), room, false) == Reply(r.d, [fc, 2 * count] + r.bytes)
  {
    ReadExecuted(t, g, swap, d, fc, from, count, room);
    RequestFields(fc, from, count);
  }

  /** The same for a write-single: the word reads back as written, a BOOL as 0 or 1. */
  lemma SingleWriteThenRead(t: Table, h: Hooks, g: Hooks, swap: bool, d: Device, pdu: seq<uint8>, room: nat, at: uint16,
                            fc: uint8, readRoom: nat)
    requires ValidDevice(t, d) && MapOk(t) && |pdu| == 5 && pdu[0] == WRITE_SINGLE && at == Word(pdu[1], pdu[2])
    requires Plain(t, at, at + 1)
    requires PduReply(t, h, swap, d, pdu, room, false).bytes == pdu
    requires fc == READ_HOLDING || fc == READ_INPUT
    requires readRoom >= 4
    ensures at < 0x1_0000
    ensures var after := PduReply(t, h, swap, d, pdu, room, false).d;
      PduReply(t, g, swap, after, ReadRequest(fc, at, 1), readRoom, false)
      == Reply(after, [fc, 2] + ReadBack(t, at, pdu[3..], at))
  {
    var after := PduReply(t, h, swap, d, pdu, room, false).d;
    AnsweredSingle(t, h, swap, d, pdu, room, at);
    StoredTilesRead(t, g, swap, after, at, at + 1, pdu[3..], at, at + 1);
    ReadDispatched(t, g, swap, after, fc, at, 1, readRoom);
    var bytes := ReadTiles(t, g, swap, after, Tiles(t, at, at + 1)).bytes;
    assert bytes[0..2] == bytes;
  }

  lemma AnsweredSingle(t: Table, h: Hooks, swap: bool, d: Device, pdu: seq<uint8>, room: nat, at: uint16)
    requires ValidDevice(t, d) && MapOk(t) && |pdu| == 5 && pdu[0] == WRITE_SINGLE && at == Word(pdu[1], pdu[2])
    requires Plain(t, at, at + 1)
    requires PduReply(t, h, swap, d, pdu, room, false).bytes == pdu
    ensures var after := PduReply(t, h, swap, d, pdu, room, false).d;
      |after.cells| == |t| && Covered(t, at, at + 1) && SpanStored(t, swap, after, at, at + 1, pdu[3..])
  {
    var after := PduReply(t, h, swap, d, pdu, room, false).d;
    var i := EntryFrom(t, at, 0).value;
    SetRawEffect(t, h, d, i, WordsToRaw(swap, t[i].rtype, pdu[3..]));
    assert Slice(t[i], at, pdu[3..]) == pdu[3..];
    forall j | Mapped(t, j) && at <= t[j].modbusAddr && End(t[j]) <= at + 1
      ensures j == i && !t[j].onRead
    {
      SameStart(t, i, j);
    }
    assert Holds(t, i, at, at, at + 1);
    assert WordCovered(t, at, at, at + 1);
  }
}
