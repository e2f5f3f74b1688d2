/** All adapters over one table: whatever they are sent and in whatever order, no register is ever left in
    a state the core's own checks refuse, and no read-only register changes. */
module System {
  import opened Words
  import opened Registers
  import Cli
  import CliLine
  import Map = ModbusMap
  import Modbus = ModbusSlave
  import Topics = MqttTopics
  import Sync = MqttSync
  import Text

  /** What reaches the device, each with what the application's hooks answer meanwhile. */
  datatype Event =
    | CliByte(h: Hooks, b: char)
    | RtuFrame(h: Hooks, swap: bool, addr: uint8, frame: seq<uint8>, cap: nat)
    | TcpFrame(h: Hooks, swap: bool, adu: seq<uint8>, cap: nat)
    | MqttMessage(h: Hooks, prefix: string, topic: string, payload: string)
    | MqttPoll(h: Hooks)

  /** The device and what has been typed at its CLI. */
  datatype State = State(d: Device, typed: string)

  // ----- every step is guarded -----

  lemma {:induction false} ReadAllGuarded(t: Table, h: Hooks, d: Device, i: nat)
    requires ValidDevice(t, d) && i <= |t|
    ensures Guarded(t, d, Cli.ReadFrom(t, h, d, i).d)
    decreases |t| - i
  {
    if i < |t| {
      var f := GetRaw(t, h, d, i);
      GetRawGuarded(t, h, d, i);
      ReadAllGuarded(t, h, f.d, i + 1);
      GuardedTrans(t, d, f.d, Cli.ReadFrom(t, h, f.d, i + 1).d);
    }
  }

  lemma {:induction false} ExecuteGuarded(t: Table, h: Hooks, c: Text.Libc, d: Device, line: string)
    requires ValidDevice(t, d)
    ensures Guarded(t, d, Cli.Execute(t, h, c, d, line).d)
  {
    var args := CliLine.Arguments(line);
    if args != [] {
      match Cli.CommandFrom(args[0], 0)
      case None =>
      case Some(k) =>
        if |args| == Cli.COMMANDS[k].argc { PerformGuarded(t, h, c, d, k, args, CliLine.WantsJson(line)); }
    }
  }

  lemma PerformGuarded(t: Table, h: Hooks, c: Text.Libc, d: Device, which: nat, args: seq<string>, json: bool)
    requires ValidDevice(t, d) && which < |Cli.COMMANDS| && |args| == Cli.COMMANDS[which].argc
    ensures Guarded(t, d, Cli.Perform(t, h, c, d, which, args, json).d)
  {
    ReadAllGuarded(t, h, d, 0);
    if which < 4 && which != 0 && Find(t, args[1]).Some? {
      var i := Find(t, args[1]).value;
      GetRawGuarded(t, h, d, i);
      if which == 2 { Text.SetTextGuarded(t, h, c, d, i, args[2]); }
    }
  }

  lemma {:induction false} ReadTilesGuarded(t: Table, h: Hooks, swap: bool, d: Device, tiles: seq<nat>)
    requires ValidDevice(t, d) && forall k :: 0 <= k < |tiles| ==> tiles[k] < |t|
    ensures Guarded(t, d, Modbus.ReadTiles(t, h, swap, d, tiles).d)
    decreases |tiles|
  {
    if tiles != [] {
      var f := GetRaw(t, h, d, tiles[0]);
      GetRawGuarded(t, h, d, tiles[0]);
      ReadTilesGuarded(t, h, swap, f.d, tiles[1..]);
      GuardedTrans(t, d, f.d, Modbus.ReadTiles(t, h, swap, f.d, tiles[1..]).d);
    }
  }

  lemma {:induction false} WriteTilesGuarded(t: Table, h: Hooks, swap: bool, d: Device, tiles: seq<nat>, start: nat,
                                             data: seq<uint8>)
    requires ValidDevice(t, d) && Modbus.Within(t, tiles, start, |data|)
    ensures Guarded(t, d, Modbus.WriteTiles(t, h, swap, d, tiles, start, data).d)
    decreases |tiles|
  {
    if tiles != [] {
      var raw := Map.WordsToRaw(swap, t[tiles[0]].rtype, Modbus.Slice(t[tiles[0]], start, data));
      var w := SetRaw(t, h, d, tiles[0], raw);
      SetRawGuarded(t, h, d, tiles[0], raw);
      if w.r == Ok {
        WriteTilesGuarded(t, h, swap, w.d, tiles[1..], start, data);
        GuardedTrans(t, d, w.d, Modbus.WriteTiles(t, h, swap, w.d, tiles[1..], start, data).d);
      }
    }
  }

  lemma ReadReplyGuarded(t: Table, h: Hooks, swap: bool, d: Device, pdu: seq<uint8>, room: nat)
    requires ValidDevice(t, d) && pdu != [] && Map.MapOk(t)
    ensures Guarded(t, d, Modbus.ReadReply(t, h, swap, d, pdu, room).d)
  {
    if |pdu| == 5 && 1 <= Map.Word(pdu[3], pdu[4]) <= Modbus.MAX_READ_QTY {
      ReadWordsGuarded(t, h, swap, d, pdu[0], Map.Word(pdu[1], pdu[2]), Map.Word(pdu[3], pdu[4]), room);
    }
  }

  lemma ReadWordsGuarded(t: Table, h: Hooks, swap: bool, d: Device, fc: uint8, start: nat, qty: nat, room: nat)
    requires ValidDevice(t, d) && Map.MapOk(t) && 1 <= qty <= Modbus.MAX_READ_QTY
    ensures Guarded(t, d, Modbus.ReadWordsReply(t, h, swap, d, fc, start, qty, room).d)
  {
    if Map.Covered(t, start, start + qty) {
      Map.TilesContiguous(t, start, start + qty);
      ReadTilesGuarded(t, h, swap, d, Map.Tiles(t, start, start + qty));
    }
  }

  lemma WriteSingleGuarded(t: Table, h: Hooks, swap: bool, d: Device, pdu: seq<uint8>, room: nat, broadcast: bool)
    requires ValidDevice(t, d) && pdu != [] && Map.MapOk(t)
    ensures Guarded(t, d, Modbus.WriteSingleReply(t, h, swap, d, pdu, room, broadcast).d)
  {
    if |pdu| == 5 {
      var found := Map.EntryFrom(t, Map.Word(pdu[1], pdu[2]), 0);
      if found.Some? && Map.WordCount(t[found.value].rtype) == 1 {
        SetRawGuarded(t, h, d, found.value, Map.WordsToRaw(swap, t[found.value].rtype, pdu[3..]));
      }
    }
  }

  lemma SpanGuarded(t: Table, h: Hooks, swap: bool, d: Device, start: nat, end: nat, data: seq<uint8>)
    requires ValidDevice(t, d) && Map.MapOk(t) && start <= end && Map.Covered(t, start, end)
    requires |data| == 2 * (end - start)
    ensures Modbus.Within(t, Map.Tiles(t, start, end), start, |data|)
    ensures Guarded(t, d, Modbus.WriteTiles(t, h, swap, d, Map.Tiles(t, start, end), start, data).d)
  {
    Map.TilesContiguous(t, start, end);
    Modbus.ContiguousWithin(t, Map.Tiles(t, start, end), start, start, end);
    WriteTilesGuarded(t, h, swap, d, Map.Tiles(t, start, end), start, data);
  }

  lemma WriteWordsGuarded(t: Table, h: Hooks, swap: bool, d: Device, pdu: seq<uint8>, start: nat, end: nat, room: nat,
                          broadcast: bool)
    requires ValidDevice(t, d) && Map.MapOk(t) && start <= end && |pdu| == 6 + 2 * (end - start)
    ensures Guarded(t, d, Modbus.WriteWordsReply(t, h, swap, d, pdu, start, end, room, broadcast).d)
  {
    if Map.Covered(t, start, end) { SpanGuarded(t, h, swap, d, start, end, pdu[6..]); }
  }

  /** Two replies that are the same. */
  lemma SameGuarded(t: Table, d: Device, r: Modbus.Reply, words: Modbus.Reply)
    requires r == words && Guarded(t, d, words.d)
    ensures Guarded(t, d, r.d)
  {
  }

  lemma MalformedWrite(t: Table, h: Hooks, swap: bool, d: Device, pdu: seq<uint8>, room: nat, broadcast: bool)
    requires |d.cells| == |t| && pdu != [] && Map.MapOk(t) && !Modbus.WellFormedWrite(pdu)
    ensures Modbus.WriteMultipleReply(t, h, swap, d, pdu, room, broadcast).d == d
  {
  }

  lemma WriteMultipleGuarded(t: Table, h: Hooks, swap: bool, d: Device, pdu: seq<uint8>, room: nat, broadcast: bool)
    requires ValidDevice(t, d) && pdu != [] && Map.MapOk(t)
    ensures Guarded(t, d, Modbus.WriteMultipleReply(t, h, swap, d, pdu, room, broadcast).d)
  {
    if Modbus.WellFormedWrite(pdu) {
      var start: nat, qty: nat := Map.Word(pdu[1], pdu[2]), Map.Word(pdu[3], pdu[4]);
      WriteUnpacked(t, h, swap, d, pdu, room, broadcast, start, qty);
      WriteWordsGuarded(t, h, swap, d, pdu, start, start + qty, room, broadcast);
      SameGuarded(t, d, Modbus.WriteMultipleReply(t, h, swap, d, pdu, room, broadcast),
                  Modbus.WriteWordsReply(t, h, swap, d, pdu, start, start + qty, room, broadcast));
    } else {
      MalformedWrite(t, h, swap, d, pdu, room, broadcast);
    }
  }

  lemma WriteUnpacked(t: Table, h: Hooks, swap: bool, d: Device, pdu: seq<uint8>, room: nat, broadcast: bool,
                      start: nat, qty: nat)
    requires |d.cells| == |t| && Map.MapOk(t) && Modbus.WellFormedWrite(pdu)
    requires start == Map.Word(pdu[1], pdu[2]) && qty == Map.Word(pdu[3], pdu[4])
    ensures Modbus.WriteMultipleReply(t, h, swap, d, pdu, room, broadcast)
         == Modbus.WriteWordsReply(t, h, swap, d, pdu, start, start + qty, room, broadcast)
  {
  }

  lemma PduGuarded(t: Table, h: Hooks, swap: bool, d: Device, pdu: seq<uint8>, room: nat, broadcast: bool)
    requires ValidDevice(t, d) && pdu != [] && Map.MapOk(t)
    ensures Guarded(t, d, Modbus.PduReply(t, h, swap, d, pdu, room, broadcast).d)
  {
    ReadReplyGuarded(t, h, swap, d, pdu, room);
    WriteSingleGuarded(t, h, swap, d, pdu, room, broadcast);
    WriteMultipleGuarded(t, h, swap, d, pdu, room, broadcast);
  }

  lemma RtuGuarded(t: Table, h: Hooks, swap: bool, addr: uint8, d: Device, frame: seq<uint8>, cap: nat)
    requires ValidDevice(t, d) && Map.MapOk(t)
    ensures Guarded(t, d, Modbus.RtuReply(t, h, swap, addr, d, frame, cap).d)
  {
    if |frame| >= 4 {
      PduGuarded(t, h, swap, d, frame[1..|frame| - 2], if cap > 3 then cap - 3 else 0, frame[0] == 0);
    }
  }

  lemma TcpGuarded(t: Table, h: Hooks, swap: bool, d: Device, adu: seq<uint8>, cap: nat)
    requires ValidDevice(t, d) && Map.MapOk(t)
    ensures Guarded(t, d, Modbus.TcpReply(t, h, swap, d, adu, cap).d)
  {
    if |adu| >= 8 && cap >= 7 { PduGuarded(t, h, swap, d, adu[7..], cap - 7, false); }
  }

  lemma MessageGuarded(t: Table, h: Hooks, c: Text.Libc, prefix: string, d: Device, topic: string, payload: string)
    requires ValidDevice(t, d)
    ensures Guarded(t, d, Topics.HandleReply(t, h, c, prefix, d, topic, payload).d)
  {
    var name := Topics.CommandName(prefix, topic);
    if name.Some? {
      var i := Find(t, name.value);
      if i.Some? { Text.SetTextGuarded(t, h, c, d, i.value, payload); }
    }
  }

  /** What an MQTT poll does to the registers: it reads them all. */
  lemma {:induction false} PollReadsAll(t: Table, h: Hooks, c: Text.Libc, prefix: string, net: Sync.Network,
                                        s: Sync.Link, i: nat)
    requires i <= |t| && Sync.Sized(t, s)
    ensures Sync.PollFrom(t, h, c, prefix, net, s, i).s.d == Cli.ReadFrom(t, h, s.d, i).d
    decreases |t| - i
  {
    if i < |t| { PollReadsAll(t, h, c, prefix, net, Sync.Visit(t, h, c, prefix, net, s, i).s, i + 1); }
  }

  // ----- runs -----

  /** The line this byte ends, if it is to be executed. */
  ghost function Ended(typed: string, b: char, cliSize: nat): Option<string> {
    if CliLine.IsLineEnd(b) then CliLine.Line(CliLine.Pending(typed), cliSize) else None
  }

  ghost function AfterByte(t: Table, h: Hooks, c: Text.Libc, d: Device, line: Option<string>): (r: Device)
    requires ValidDevice(t, d)
    ensures Guarded(t, d, r)
  {
    match line
    case None => d
    case Some(text) =>
      ExecuteGuarded(t, h, c, d, text);
      Cli.Execute(t, h, c, d, text).d
  }

  /** The device after an event; cliSize is the CLI's buffer size. */
  ghost function DeviceAfter(t: Table, c: Text.Libc, cliSize: nat, s: State, e: Event): (r: Device)
    requires ValidDevice(t, s.d) && Map.MapOk(t)
    ensures Guarded(t, s.d, r)
  {
    match e
    case CliByte(h, b) => AfterByte(t, h, c, s.d, Ended(s.typed, b, cliSize))
    case RtuFrame(h, swap, addr, frame, cap) =>
      RtuGuarded(t, h, swap, addr, s.d, frame, cap);
      Modbus.RtuReply(t, h, swap, addr, s.d, frame, cap).d
    case TcpFrame(h, swap, adu, cap) =>
      TcpGuarded(t, h, swap, s.d, adu, cap);
      Modbus.TcpReply(t, h, swap, s.d, adu, cap).d
    case MqttMessage(h, prefix, topic, payload) =>
      MessageGuarded(t, h, c, prefix, s.d, topic, payload);
      Topics.HandleReply(t, h, c, prefix, s.d, topic, payload).d
    case MqttPoll(h) =>
      ReadAllGuarded(t, h, s.d, 0);
      Cli.ReadFrom(t, h, s.d, 0).d
  }

  ghost function Run(t: Table, c: Text.Libc, cliSize: nat, s: State, events: seq<Event>): (r: State)
    requires ValidDevice(t, s.d) && Map.MapOk(t)
    ensures ValidDevice(t, r.d)
    decreases |events|
  {
    if events == [] then s
    else
      var typed := if events[0].CliByte? then s.typed + [events[0].b] else s.typed;
      Run(t, c, cliSize, State(DeviceAfter(t, c, cliSize, s, events[0]), typed), events[1..])
  }

  lemma {:induction false} RunGuarded(t: Table, c: Text.Libc, cliSize: nat, s: State, events: seq<Event>)
    requires ValidDevice(t, s.d) && Map.MapOk(t)
    ensures Guarded(t, s.d, Run(t, c, cliSize, s, events).d)
    decreases |events|
  {
    if events != [] {
      var typed := if events[0].CliByte? then s.typed + [events[0].b] else s.typed;
      var next := State(DeviceAfter(t, c, cliSize, s, events[0]), typed);
      RunGuarded(t, c, cliSize, next, events[1..]);
      GuardedTrans(t, s.d, next.d, Run(t, c, cliSize, next, events[1..]).d);
    }
  }

  /** Any interleaving of CLI bytes, Modbus frames, MQTT commands and reads: every writable register keeps a
      legal value (in its type's domain and its range, never NaN or infinite), every read-only register
      without on_read keeps its very variable. */
  lemma StaysLegal(t: Table, c: Text.Libc, cliSize: nat, s: State, events: seq<Event>)
    requires Map.MapOk(t) && AllLegal(t, s.d)
    ensures var after := Run(t, c, cliSize, s, events).d;
      && AllLegal(t, after)
      && forall i :: 0 <= i < |t| && t[i].perm == RO && !t[i].onRead ==> after.cells[i] == s.d.cells[i]
  {
    RunGuarded(t, c, cliSize, s, events);
  }

  /** A write that is refused, by a result over the CLI or MQTT, or by an exception to a Modbus 06, leaves
      the variables and the dirty bits exactly as they were. */
  lemma RefusedWritesChangeNothing(t: Table, h: Hooks, c: Text.Libc, d: Device)
    requires ValidDevice(t, d) && Map.MapOk(t)
    ensures forall line :: var x := Cli.Execute(t, h, c, d, line); x.answer.Done? && x.answer.r != Ok ==> x.d == d
    ensures forall prefix, topic, payload ::
              var w := Topics.HandleReply(t, h, c, prefix, d, topic, payload); w.r != Ok ==> w.d == d
    ensures forall swap, pdu: seq<uint8>, room, broadcast :: pdu != [] && pdu[0] == Modbus.WRITE_SINGLE ==>
              var r := Modbus.PduReply(t, h, swap, d, pdu, room, broadcast);
              r.bytes != [] && r.bytes[0] != Modbus.WRITE_SINGLE ==> r.d == d
  {
    forall line ensures var x := Cli.Execute(t, h, c, d, line); x.answer.Done? && x.answer.r != Ok ==> x.d == d {
      RefusedLine(t, h, c, d, line);
    }
    forall prefix, topic, payload
      ensures var w := Topics.HandleReply(t, h, c, prefix, d, topic, payload); w.r != Ok ==> w.d == d
    {
      RefusedMessage(t, h, c, prefix, d, topic, payload);
    }
    forall swap, pdu: seq<uint8>, room, broadcast | pdu != [] && pdu[0] == Modbus.WRITE_SINGLE
      ensures var r := Modbus.PduReply(t, h, swap, d, pdu, room, broadcast);
        r.bytes != [] && r.bytes[0] != Modbus.WRITE_SINGLE ==> r.d == d
    {
      RefusedSingle(t, h, swap, d, pdu, room, broadcast);
    }
  }

  lemma RefusedLine(t: Table, h: Hooks, c: Text.Libc, d: Device, line: string)
    requires ValidDevice(t, d)
    ensures var x := Cli.Execute(t, h, c, d, line); x.answer.Done? && x.answer.r != Ok ==> x.d == d
  {
    var args := CliLine.Arguments(line);
    if |args| == 3 && Find(t, args[1]).Some? { Text.SetTextGuarded(t, h, c, d, Find(t, args[1]).value, args[2]); }
  }

  lemma RefusedMessage(t: Table, h: Hooks, c: Text.Libc, prefix: string, d: Device, topic: string, payload: string)
    requires ValidDevice(t, d)
    ensures var w := Topics.HandleReply(t, h, c, prefix, d, topic, payload); w.r != Ok ==> w.d == d
  {
    var name := Topics.CommandName(prefix, topic);
    if name.Some? {
      var i := Find(t, name.value);
      if i.Some? { Text.SetTextGuarded(t, h, c, d, i.value, payload); }
    }
  }

  lemma RefusedSingle(t: Table, h: Hooks, swap: bool, d: Device, pdu: seq<uint8>, room: nat, broadcast: bool)
    requires ValidDevice(t, d) && Map.MapOk(t) && pdu != [] && pdu[0] == Modbus.WRITE_SINGLE
    ensures var r := Modbus.PduReply(t, h, swap, d, pdu, room, broadcast);
      r.bytes != [] && r.bytes[0] != Modbus.WRITE_SINGLE ==> r.d == d
  {
    if |pdu| == 5 {
      var found := Map.EntryFrom(t, Map.Word(pdu[1], pdu[2]), 0);
      if found.Some? && Map.WordCount(t[found.value].rtype) == 1 {
        SetRawEffect(t, h, d, found.value, Map.WordsToRaw(swap, t[found.value].rtype, pdu[3..]));
      }
    }
  }
}
