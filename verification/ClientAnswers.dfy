/** A call of the host client followed all the way: the line it sends, what the CLI does with it, the JSON that comes
    back, and what the call makes of that. */
module ClientAnswers {
  import opened Words
  import opened Registers
  import opened CliLine
  import opened Client
  import opened Fingerprint
  import opened CliJson
  import Cli
  import CliCommands
  import ClientChecks
  import Discover
  import Float32
  import MqttReadable
  import Text

  // ----- the lines that are sent -----

  lemma GetArguments(name: string)
    requires IsWord(name) && name != JSON_FLAG
    ensures Arguments(Command(Get(name))) == ["get", name] && WantsJson(Command(Get(name)))
  {
    var words := ["get", name, JSON_FLAG];
    GetSpaced(name);
    assert words[2] == JSON_FLAG;
    SplitJoined(words);
    assert ["get"] + [name] == ["get", name] && ["get", name] + [JSON_FLAG] == words && [] + ["get"] == ["get"];
    WithoutFlagNext([], "get");
    WithoutFlagNext(["get"], name);
    WithoutFlagNext(["get", name], JSON_FLAG);
  }

  lemma GetSpaced(name: string)
    ensures Command(Get(name)) == Spaced(["get", name, JSON_FLAG])
  {
    ClientChecks.SpacedNext([name, JSON_FLAG], [JSON_FLAG]);
    ClientChecks.SpacedNext(["get", name, JSON_FLAG], [name, JSON_FLAG]);
    assert "get" + " " == "get " && " " + JSON_FLAG == " --json";
    Chain("get ", name, " ", JSON_FLAG);
  }

  lemma Chain(a: string, b: string, c: string, d: string)
    ensures a + b + (c + d) == a + (b + c + d)
  {
  }

  lemma SnapshotArguments()
    ensures Arguments(Command(Snapshot)) == ["list"] && WantsJson(Command(Snapshot))
  {
    var words := ["list", JSON_FLAG];
    ClientChecks.SpacedNext(words, [JSON_FLAG]);
    assert "list" + " " + JSON_FLAG == "list --json";
    assert words[1] == JSON_FLAG;
    SplitJoined(words);
    assert ["list"] + [JSON_FLAG] == words && [] + ["list"] == ["list"];
    WithoutFlagNext([], "list");
    WithoutFlagNext(["list"], JSON_FLAG);
  }

  // ----- the answer -----

  /** cmds[].usage */
  function UsageText(which: nat): string {
    if which == 0 then "ERR: usage: list" else if which == 1 then "ERR: usage: get <name>"
    else if which == 2 then "ERR: usage: set <name> <value>" else if which == 3 then "ERR: usage: info <name>"
    else if which == 4 then "ERR: usage: id" else if which == 5 then "ERR: usage: fetch" else "ERR: usage: help"
  }

  /** What goes out in answer to a line with --json: one object, a list of them, or nothing the calls below take. */
  datatype Said = Object(text: string) | List(texts: seq<string>) | NoJson

  function SaidOf(c: Text.Libc, t: Table, answer: Cli.Answer): Said {
    match answer
    case Done(r) => Said.Object(ResultJson(r))
    case Value(i, raw) => if i < |t| then Said.Object(GetJson(c, t[i].rtype, raw)) else NoJson
    case Info(i, raw) => if i < |t| then Said.Object(EntryJson(c, t[i], raw)) else NoJson
    case Listing(raws) => if |raws| == |t| then List(EntriesJson(c, t, raws)) else NoJson
    case TooManyArguments => Said.Object(ErrorJson("ERR: too many arguments"))
    case UnknownCommand => Said.Object(ErrorJson("ERR: unknown command. type 'help'"))
    case Usage(which) => Said.Object(ErrorJson(UsageText(which)))
    case _ => NoJson
  }

  function EntriesJson(c: Text.Libc, t: Table, raws: seq<uint32>): (texts: seq<string>)
    requires |raws| == |t|
    ensures |texts| == |t|
  {
    seq(|t|, i requires 0 <= i < |t| => EntryJson(c, t[i], raws[i]))
  }

  /** What json.loads makes of it. */
  function Heard(number: Numbers, said: Said): Client.Json {
    match said
    case Object(text) => Loads(number, text)
    case List(texts) => Array(seq(|texts|, i requires 0 <= i < |texts| => Loads(number, texts[i])))
    case NoJson => Null
  }

  /** And of the answer to this line. */
  function Told(number: Numbers, c: Text.Libc, t: Table, answer: Cli.Answer): Client.Json {
    Heard(number, SaidOf(c, t, answer))
  }

  lemma ToldIs(number: Numbers, c: Text.Libc, t: Table, answer: Cli.Answer, text: string)
    requires SaidOf(c, t, answer) == Said.Object(text)
    ensures Told(number, c, t, answer) == Loads(number, text)
  {
  }

  lemma DoneSaid(c: Text.Libc, t: Table, r: RegResult)
    ensures SaidOf(c, t, Cli.Done(r)) == Said.Object(ResultJson(r))
  {
  }

  lemma ValueSaid(c: Text.Libc, t: Table, i: nat, raw: uint32)
    requires i < |t|
    ensures SaidOf(c, t, Cli.Value(i, raw)) == Said.Object(GetJson(c, t[i].rtype, raw))
  {
  }

  lemma ListingSaid(c: Text.Libc, t: Table, raws: seq<uint32>)
    requires |raws| == |t|
    ensures SaidOf(c, t, Cli.Listing(raws)) == List(EntriesJson(c, t, raws))
  {
  }

  // ----- set -----

  /** The specified write of a text to the register of this name. */
  function Write(t: Table, h: Hooks, c: Text.Libc, d: Device, name: string, text: string): Written
    requires |t| == |d.cells|
  {
    match Find(t, name)
    case None => Written(d, NotFound)
    case Some(i) => Text.SetText(t, h, c, d, i, text)
  }

  /** What set() is to come to: done, or RemoteError with what the device says is wrong. */
  function SetResult(r: RegResult, k: nat): Result {
    match r
    case Ok => WasSet(k)
    case NotFound => Remote(k, "ERR: not found")
    case ReadOnly => Remote(k, "ERR: read-only")
    case TypeError => Remote(k, "ERR: invalid value")
    case RangeError => Remote(k, "ERR: out of range")
    case Rejected => Remote(k, "ERR: rejected")
    case TableError => Remote(k, "ERR: bad table")
  }

  lemma SetExecuted(t: Table, h: Hooks, c: Text.Libc, d: Device, name: string, text: string)
    requires |d.cells| == |t| && IsWord(name) && IsWord(text) && name != JSON_FLAG && text != JSON_FLAG
    ensures var w := Write(t, h, c, d, name, text);
      Cli.Execute(t, h, c, d, Command(Set(name, text))) == Cli.Executed(w.d, Cli.Done(w.r), true)
  {
    ClientChecks.SetArguments(name, text);
    if Find(t, name).Some? {
      CliCommands.SetLine(t, h, c, d, Command(Set(name, text)), name, text, Find(t, name).value);
    } else {
      CliCommands.UnknownName(t, h, c, d, Command(Set(name, text)), name);
    }
  }

  /** The two shapes of an answer that reports a result. */
  ghost predicate Reports(a: Client.Json, r: RegResult) {
    if r == Ok then a == Client.Object(map["result" := Client.Json.Str("OK")])
    else a == Client.Object(map["error" := Client.Json.Str(ResultText(r))])
  }

  lemma ResultHeard(number: Numbers, r: RegResult)
    ensures Reports(Loads(number, ResultJson(r)), r)
  {
    if r == Ok {
      ResultReads(number);
    } else {
      ResultTexts(r);
      ErrorReads(number, ResultText(r));
    }
  }

  lemma ResultTexts(r: RegResult)
    ensures CText(ResultText(r))
    ensures r != Ok ==> SetResult(r, 0) == Remote(0, ResultText(r))
  {
  }

  lemma ReportJudged(f32: Float32.Rounding, types: map<string, RegType>, call: Call, a: Client.Json, r: RegResult,
                     k: nat)
    requires Reports(a, r) && (call.Set? || (call.Get? && r != Ok))
    ensures Judge(f32, types, call, a, k) == SetResult(r, k)
  {
    if r != Ok { ResultTexts(r); }
  }

  lemma ResultTold(number: Numbers, f32: Float32.Rounding, types: map<string, RegType>, name: string, text: string,
                   r: RegResult, k: nat)
    ensures Judge(f32, types, Set(name, text), Loads(number, ResultJson(r)), k) == SetResult(r, k)
  {
    ResultHeard(number, r);
    ReportJudged(f32, types, Set(name, text), Loads(number, ResultJson(r)), r, k);
  }

  lemma DoneTold(number: Numbers, c: Text.Libc, f32: Float32.Rounding, types: map<string, RegType>, t: Table,
                 name: string, text: string, x: Cli.Executed, w: Written, k: nat)
    requires x == Cli.Executed(w.d, Cli.Done(w.r), true)
    ensures Judge(f32, types, Set(name, text), Told(number, c, t, x.answer), k) == SetResult(w.r, k)
  {
    DoneSaid(c, t, w.r);
    ToldIs(number, c, t, x.answer, ResultJson(w.r));
    ResultTold(number, f32, types, name, text, w.r, k);
  }

  /** A set is done exactly when the device's own write of that text to that register is, and otherwise fails
      with the device's reason; whatever the result, the device is as that write left it. */
  lemma SetOutcome(number: Numbers, c: Text.Libc, f32: Float32.Rounding, types: map<string, RegType>, t: Table,
                   h: Hooks, d: Device, name: string, text: string, k: nat)
    requires |d.cells| == |t| && IsWord(name) && IsWord(text) && name != JSON_FLAG && text != JSON_FLAG
    ensures var w, x := Write(t, h, c, d, name, text), Cli.Execute(t, h, c, d, Command(Set(name, text)));
      x.d == w.d && Judge(f32, types, Set(name, text), Told(number, c, t, x.answer), k) == SetResult(w.r, k)
  {
    SetExecuted(t, h, c, d, name, text);
    DoneTold(number, c, f32, types, t, name, text, Cli.Execute(t, h, c, d, Command(Set(name, text))),
             Write(t, h, c, d, name, text), k);
  }

  // ----- get -----

  /** What get() is to come to for this value: the number, the truth value, or the float the register holds; a
      float the host cannot read ends the connection. */
  function GetResult(ty: RegType, v: uint32, k: nat): Result {
    if ty == RegType.Bool then Got(k, Client.Json.Bool(v != 0))
    else if ty != Float then Got(k, Int(Number(ty, v)))
    else if Discover.Readable(Float, v) then Got(k, Real(Float32.RealOf(ThroughJson(Float, v))))
    else TransportError
  }

  lemma NumberInDomain(f32: Float32.Rounding, ty: RegType, v: uint32)
    requires ty != Float && ty != RegType.Bool && InType(ty, v)
    ensures InDomain(f32, ty, Int(Number(ty, v)))
  {
  }

  lemma ValueJudged(f32: Float32.Rounding, shown: Discover.Shown, ty: RegType, v: uint32)
    requires Float32.Rounds(f32) && Discover.RoundTrips(f32, shown) && (ty != Float ==> InType(ty, v))
    ensures var a := Discover.ValueJson(shown, ty, v);
      InDomain(f32, ty, a) <==> (ty != Float || Discover.Readable(Float, v))
    ensures var a := Discover.ValueJson(shown, ty, v);
      InDomain(f32, ty, a) ==> Got(0, Held(f32, ty, a)) == GetResult(ty, v, 0)
  {
    if ty == Float {
      Discover.ValueReadable(f32, shown, ty, v);
    } else if ty != RegType.Bool {
      NumberInDomain(f32, ty, v);
    }
  }

  lemma ValueTold(number: Numbers, c: Text.Libc, f32: Float32.Rounding, types: map<string, RegType>, name: string,
                  ty: RegType, v: uint32, k: nat)
    requires MqttReadable.PrintsNumbers(c) && Float32.Rounds(f32) && Discover.RoundTrips(f32, Shown(c, number))
    requires name in types && types[name] == ty && (ty != Float ==> InType(ty, v))
    ensures Judge(f32, types, Get(name), Loads(number, GetJson(c, ty, v)), k) == GetResult(ty, v, k)
  {
    GetReads(c, number, ty, v);
    ValueJudged(f32, Shown(c, number), ty, v);
  }

  lemma GetTold(number: Numbers, c: Text.Libc, f32: Float32.Rounding, types: map<string, RegType>, t: Table,
                name: string, x: Cli.Executed, i: nat, v: uint32, k: nat)
    requires MqttReadable.PrintsNumbers(c) && Float32.Rounds(f32) && Discover.RoundTrips(f32, Shown(c, number))
    requires i < |t| && name in types && types[name] == t[i].rtype && (t[i].rtype != Float ==> InType(t[i].rtype, v))
    requires x.answer == Cli.Value(i, v)
    ensures Judge(f32, types, Get(name), Told(number, c, t, x.answer), k) == GetResult(t[i].rtype, v, k)
  {
    ValueSaid(c, t, i, v);
    ToldIs(number, c, t, x.answer, GetJson(c, t[i].rtype, v));
    ValueTold(number, c, f32, types, name, t[i].rtype, v, k);
  }

  /** A get returns the number the register yields, on_read included, which is then in its variable, and nothing
      else has changed. */
  lemma GetOutcome(number: Numbers, c: Text.Libc, f32: Float32.Rounding, types: map<string, RegType>, t: Table,
                   h: Hooks, d: Device, name: string, i: nat, v: uint32, k: nat)
    requires MqttReadable.PrintsNumbers(c) && Float32.Rounds(f32) && Discover.RoundTrips(f32, Shown(c, number))
    requires ValidDevice(t, d) && IsWord(name) && name != JSON_FLAG && Find(t, name) == Some(i)
    requires name in types && types[name] == t[i].rtype && YieldsNow(t, h, d, i, v)
    ensures var x := Cli.Execute(t, h, c, d, Command(Get(name)));
      && Judge(f32, types, Get(name), Told(number, c, t, x.answer), k) == GetResult(t[i].rtype, v, k)
      && Holding(t, d, x.d, i, v)
  {
    GetArguments(name);
    CliCommands.GetLine(t, h, c, d, Command(Get(name)), name, i, v);
    if t[i].rtype != Float { YieldsInType(t, h, d, i, v); }
    GetTold(number, c, f32, types, t, name, Cli.Execute(t, h, c, d, Command(Get(name))), i, v, k);
  }

  /** A name the device does not have: RemoteError, and nothing has changed. */
  lemma GetUnknown(number: Numbers, c: Text.Libc, f32: Float32.Rounding, types: map<string, RegType>, t: Table,
                   h: Hooks, d: Device, name: string, k: nat)
    requires |d.cells| == |t| && IsWord(name) && name != JSON_FLAG && Find(t, name) == None
    ensures var x := Cli.Execute(t, h, c, d, Command(Get(name)));
      x.d == d && Judge(f32, types, Get(name), Told(number, c, t, x.answer), k) == Remote(k, "ERR: not found")
  {
    GetArguments(name);
    CliCommands.UnknownName(t, h, c, d, Command(Get(name)), name);
    NotFoundTold(number, c, f32, types, t, name, Cli.Execute(t, h, c, d, Command(Get(name))), k);
  }

  lemma NotFoundTold(number: Numbers, c: Text.Libc, f32: Float32.Rounding, types: map<string, RegType>, t: Table,
                     name: string, x: Cli.Executed, k: nat)
    requires x.answer == Cli.Done(NotFound)
    ensures Judge(f32, types, Get(name), Told(number, c, t, x.answer), k) == Remote(k, "ERR: not found")
  {
    DoneSaid(c, t, NotFound);
    ToldIs(number, c, t, x.answer, ResultJson(NotFound));
    ResultHeard(number, NotFound);
    ReportJudged(f32, types, Get(name), Loads(number, ResultJson(NotFound)), NotFound, k);
  }

  // ----- snapshot -----

  lemma EntriesHeard(number: Numbers, c: Text.Libc, t: Table, raws: seq<uint32>)
    requires MqttReadable.PrintsNumbers(c) && |raws| == |t| && AsciiTable(t)
    ensures Heard(number, List(EntriesJson(c, t, raws))) == Array(Discover.ListJson(Shown(c, number), t, raws))
  {
    AsciiIsC(t);
    forall i | 0 <= i < |t|
      ensures Loads(number, EntryJson(c, t[i], raws[i])) == Discover.EntryJson(Shown(c, number), t[i], raws[i])
    {
      EntryReads(c, number, t[i], raws[i]);
    }
  }

  /** One element of a snapshot: the entry's own name, and the value as get() would have it. */
  predicate Snapped(e: Entry, raw: uint32, item: Client.Json) {
    && item.Object? && "name" in item.members && item.members["name"] == Client.Json.Str(e.name)
    && "value" in item.members && Got(0, item.members["value"]) == GetResult(e.rtype, raw, 0)
  }

  lemma RoundedSnaps(f32: Float32.Rounding, shown: Discover.Shown, e: Entry, raw: uint32)
    requires Float32.Rounds(f32) && Discover.RoundTrips(f32, shown) && (e.rtype != Float ==> InType(e.rtype, raw))
    requires EntryShaped(f32, Discover.EntryJson(shown, e, raw))
    ensures Snapped(e, raw, Rounded(f32, Discover.EntryJson(shown, e, raw)))
  {
    Discover.Looked(shown, e, raw);
    Discover.TypeNames(e.rtype);
    ValueJudged(f32, shown, e.rtype, raw);
  }

  lemma ListJudged(f32: Float32.Rounding, shown: Discover.Shown, t: Table, raws: seq<uint32>, k: nat)
    requires Float32.Rounds(f32) && Discover.RoundTrips(f32, shown) && |raws| == |t| && AsciiTable(t)
    requires forall i :: 0 <= i < |t| && t[i].rtype != Float ==> InType(t[i].rtype, raws[i])
    ensures var r := JudgeList(f32, Discover.ListJson(shown, t, raws), k);
      if Discover.ValuesReadable(t, raws) then
        r.Listed? && r.k == k && |r.items| == |t| && forall i :: 0 <= i < |t| ==> Snapped(t[i], raws[i], r.items[i])
      else r == TransportError
  {
    var items := Discover.ListJson(shown, t, raws);
    Discover.ListShapedIff(f32, shown, t, raws);
    if Discover.ValuesReadable(t, raws) {
      forall i | 0 <= i < |t| ensures Snapped(t[i], raws[i], Rounded(f32, items[i])) {
        assert EntryShaped(f32, items[i]);
        RoundedSnaps(f32, shown, t[i], raws[i]);
      }
    }
  }

  lemma ListingTold(number: Numbers, c: Text.Libc, f32: Float32.Rounding, types: map<string, RegType>, t: Table,
                    x: Cli.Executed, raws: seq<uint32>, k: nat)
    requires MqttReadable.PrintsNumbers(c) && |raws| == |t| && AsciiTable(t) && x.answer == Cli.Listing(raws)
    ensures Judge(f32, types, Snapshot, Told(number, c, t, x.answer), k)
         == JudgeList(f32, Discover.ListJson(Shown(c, number), t, raws), k)
  {
    ListingSaid(c, t, raws);
    EntriesHeard(number, c, t, raws);
  }

  /** A snapshot of a device with ASCII texts: every register in table order under its name, with the value it
      yields, unless some float has a value no host can read. */
  lemma SnapshotOutcome(number: Numbers, c: Text.Libc, f32: Float32.Rounding, types: map<string, RegType>, t: Table,
                        h: Hooks, d: Device, raws: seq<uint32>, k: nat)
    requires MqttReadable.PrintsNumbers(c) && Float32.Rounds(f32) && Discover.RoundTrips(f32, Shown(c, number))
    requires ValidDevice(t, d) && |raws| == |t| && AsciiTable(t)
    requires forall i :: 0 <= i < |t| ==> Yields(t, h, d, i, raws[i])
    ensures var x := Cli.Execute(t, h, c, d, Command(Snapshot));
            var r := Judge(f32, types, Snapshot, Told(number, c, t, x.answer), k);
      if Discover.ValuesReadable(t, raws) then
        r.Listed? && r.k == k && |r.items| == |t| && forall i :: 0 <= i < |t| ==> Snapped(t[i], raws[i], r.items[i])
      else r == TransportError
  {
    SnapshotArguments();
    CliCommands.ListLine(t, h, c, d, Command(Snapshot), raws);
    ListingTold(number, c, f32, types, t, Cli.Execute(t, h, c, d, Command(Snapshot)), raws, k);
    forall i | 0 <= i < |t| && t[i].rtype != Float ensures InType(t[i].rtype, raws[i]) {
      YieldsHere(t, h, d, i, raws[i]);
      YieldsInType(t, h, d, i, raws[i]);
    }
    ListJudged(f32, Shown(c, number), t, raws, k);
  }

  // ----- answers of the wrong shape -----

  /** Not an object, an error that is no string, a set that is neither OK nor an error, a value that is missing or
      does not fit the type, a listing with one malformed entry: none of them is taken for an outcome. */
  lemma MalformedRefused(f32: Float32.Rounding, types: map<string, RegType>, call: Call, a: Client.Json, k: nat)
    requires match call
      case Get(name) =>
        || !a.Object? || ("error" in a.members && !a.members["error"].Str?)
        || ("error" !in a.members
            && ("value" !in a.members || (name in types && !InDomain(f32, types[name], a.members["value"]))))
      case Set(_, _) =>
        || !a.Object? || ("error" in a.members && !a.members["error"].Str?)
        || ("error" !in a.members && ("result" !in a.members || a.members["result"] != Client.Json.Str("OK")))
      case Snapshot =>
        !a.Array? || exists i :: 0 <= i < |a.items| && !EntryShaped(f32, a.items[i])
      case Close => false
    ensures Judge(f32, types, call, a, k) == TransportError
  {
  }

  // ----- over whole runs -----

  /** Every line written was executed by the device's CLI, on the device and with the hooks of its moment, and its
      answer is what came back for it. */
  ghost predicate Answered(number: Numbers, c: Text.Libc, t: Table, hs: nat -> Hooks, ds: nat -> Device,
                           written: seq<string>, answers: nat -> Client.Json) {
    forall k :: 0 <= k < |written| ==>
      |ds(k).cells| == |t| && answers(k) == Told(number, c, t, Cli.Execute(t, hs(k), c, ds(k), written[k]).answer)
  }

  /** Over any run, whatever noise, delays and failures: a set ends with the connection, or with the outcome of the
      device's write of that text to that register, carried out on this call's behalf. */
  lemma SetInRun(number: Numbers, c: Text.Libc, f32: Float32.Rounding, types: map<string, RegType>, t: Table,
                 hs: nat -> Hooks, ds: nat -> Device, answers: nat -> Client.Json, s: Session, calls: seq<Call>,
                 envs: nat -> Env, i: nat, name: string, text: string)
    requires i < |calls| && Paired(s) && calls[i] == Set(name, text)
    requires Answered(number, c, t, hs, ds, Run(answers, f32, types, s, calls, envs, 0).s.wire.written, answers)
    requires IsWord(name) && IsWord(text) && name != JSON_FLAG && text != JSON_FLAG
    ensures var f := Run(answers, f32, types, s, calls, envs, 0);
      match IndexOf(f.results[i])
      case None => true
      case Some(k) =>
        && |s.wire.written| <= k < |f.s.wire.written| && f.s.wire.written[k] == Command(calls[i])
        && |ds(k).cells| == |t| && f.results[i] == SetResult(Write(t, hs(k), c, ds(k), name, text).r, k)
  {
    var f := Run(answers, f32, types, s, calls, envs, 0);
    AnswersArePaired(answers, f32, types, s, calls, envs, 0, i);
    if IndexOf(f.results[i]).Some? {
      var k := IndexOf(f.results[i]).value;
      SetOutcome(number, c, f32, types, t, hs(k), ds(k), name, text, k);
    }
  }

  /** And a get with the connection, or with what the register of that name yielded on this call's behalf, or with
      the device's word that there is none. */
  lemma GetInRun(number: Numbers, c: Text.Libc, f32: Float32.Rounding, types: map<string, RegType>, t: Table,
                 hs: nat -> Hooks, ds: nat -> Device, answers: nat -> Client.Json, s: Session, calls: seq<Call>,
                 envs: nat -> Env, i: nat, name: string, v: uint32)
    requires MqttReadable.PrintsNumbers(c) && Float32.Rounds(f32) && Discover.RoundTrips(f32, Shown(c, number))
    requires i < |calls| && Paired(s) && calls[i] == Get(name) && IsWord(name) && name != JSON_FLAG
    requires Answered(number, c, t, hs, ds, Run(answers, f32, types, s, calls, envs, 0).s.wire.written, answers)
    requires Find(t, name).Some? ==> name in types && types[name] == t[Find(t, name).value].rtype
    ensures var f := Run(answers, f32, types, s, calls, envs, 0);
      match IndexOf(f.results[i])
      case None => true
      case Some(k) =>
        && |s.wire.written| <= k < |f.s.wire.written| && f.s.wire.written[k] == Command(calls[i])
        && match Find(t, name)
           case None => f.results[i] == Remote(k, "ERR: not found")
           case Some(j) =>
             ValidDevice(t, ds(k)) && YieldsNow(t, hs(k), ds(k), j, v) ==> f.results[i] == GetResult(t[j].rtype, v, k)
  {
    var f := Run(answers, f32, types, s, calls, envs, 0);
    AnswersArePaired(answers, f32, types, s, calls, envs, 0, i);
    if IndexOf(f.results[i]).Some? {
      var k := IndexOf(f.results[i]).value;
      match Find(t, name)
      case None => GetUnknown(number, c, f32, types, t, hs(k), ds(k), name, k);
      case Some(j) =>
        if ValidDevice(t, ds(k)) && YieldsNow(t, hs(k), ds(k), j, v) {
          GetOutcome(number, c, f32, types, t, hs(k), ds(k), name, j, v, k);
        }
    }
  }
}
