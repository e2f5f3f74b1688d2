/** The host client: one command, one answer, over a wire that carries no request ids. Whatever the wire
    does, an answer a live client returns is the device's answer to that very command. */
module Client {
  import opened Words
  import opened Registers
  import Float32

  // ----- the device at the other end -----

  /** A line in flight: something without JSON (an echo, a banner, a prompt), or the device's answer to the
      k-th command line it was sent. */
  datatype Line = Noise(text: string) | Answer(k: nat)

  /** What the device does meanwhile: it says something, or answers the oldest command not yet answered. */
  datatype Move = Chatter(text: string) | AnswerNext

  /** The wire: the lines written to the device, how many of them it has answered, and what is in flight. */
  datatype Wire = Wire(written: seq<string>, answered: nat, inFlight: seq<Line>)

  function Arrive(w: Wire, moves: seq<Move>): Wire
    decreases |moves|
  {
    if moves == [] then w else Arrive(ArriveOne(w, moves[0]), moves[1..])
  }

  function ArriveOne(w: Wire, m: Move): Wire {
    match m
    case Chatter(text) => w.(inFlight := w.inFlight + [Noise(text)])
    case AnswerNext =>
      if w.answered < |w.written| then w.(answered := w.answered + 1, inFlight := w.inFlight + [Answer(w.answered)])
      else w
  }

  /** What becomes of a write: the line goes out, or the transport raises with the line sent or not. */
  datatype WriteFate = Goes | RaisesAfterSending | RaisesUnsent

  /** What becomes of a read, after the device's moves: a line, nothing in time, or an exception. */
  datatype ReadFate = Delivers(moves: seq<Move>) | Late(moves: seq<Move>) | Raises(moves: seq<Move>)

  /** Everything the environment decides during one command. */
  datatype Env = Env(write: WriteFate, turns: nat -> ReadFate)

  // ----- the client -----

  /** The client and its transport: whether it gave up, the wire, and how often the transport was closed. */
  datatype Session = Session(dead: bool, wire: Wire, closes: nat)

  function Fail(s: Session): Session {
    s.(dead := true, closes := s.closes + 1)
  }

  /** max_lines of _cmd_json. */
  const MAX_LINES := 8

  /** The session after a command, and which line's answer it got, if any. */
  datatype Exchange = Exchange(s: Session, k: Option<nat>)

  /** The reading loop of _cmd_json from its i-th turn on. */
  function ReadFrom(s: Session, turns: nat -> ReadFate, i: nat): Exchange
    requires i <= MAX_LINES
    decreases MAX_LINES - i
  {
    if i == MAX_LINES then Exchange(Fail(s), None)
    else
      var now := s.(wire := Arrive(s.wire, turns(i).moves));
      if !turns(i).Delivers? || now.wire.inFlight == [] then Exchange(Fail(now), None)
      else
        var rest := now.(wire := now.wire.(inFlight := now.wire.inFlight[1..]));
        match now.wire.inFlight[0]
        case Noise(_) => ReadFrom(rest, turns, i + 1)
        case Answer(k) => Exchange(rest, Some(k))
  }

  /** _cmd_json. */
  function CmdJson(s: Session, cmd: string, env: Env): Exchange {
    if s.dead then Exchange(s, None)
    else
      var sent := s.(wire := s.wire.(written := s.wire.written + [cmd]));
      match env.write
      case Goes => ReadFrom(sent, env.turns, 0)
      case RaisesAfterSending => Exchange(Fail(sent), None)
      case RaisesUnsent => Exchange(Fail(s), None)
  }

  function Shutdown(s: Session): Session {
    if s.dead then s else Fail(s)
  }

  // ----- pairing -----

  /** The indices of the answers in flight, in order. */
  function Answers(lines: seq<Line>): seq<nat> {
    if lines == [] then []
    else (match lines[0] case Noise(_) => [] case Answer(k) => [k]) + Answers(lines[1..])
  }

  function Span(a: nat, b: nat): seq<nat>
    decreases b - a
  {
    if a >= b then [] else [a] + Span(a + 1, b)
  }

  /** The answers to the commands from `next` on are in flight, in order, or still to come. */
  ghost predicate InOrder(w: Wire, next: nat) {
    next <= w.answered <= |w.written| && Answers(w.inFlight) == Span(next, w.answered)
  }

  lemma {:induction false} AnswersConcat(a: seq<Line>, b: seq<Line>)
    ensures Answers(a + b) == Answers(a) + Answers(b)
  {
    if a == [] {
      assert a + b == b;
    } else {
      assert (a + b)[1..] == a[1..] + b;
      AnswersConcat(a[1..], b);
    }
  }

  lemma {:induction false} SpanNext(a: nat, b: nat)
    requires a <= b
    ensures Span(a, b + 1) == Span(a, b) + [b]
    decreases b - a
  {
    if a < b { SpanNext(a + 1, b); }
  }

  lemma {:induction false} ArriveInOrder(w: Wire, moves: seq<Move>, next: nat)
    requires InOrder(w, next)
    ensures InOrder(Arrive(w, moves), next) && Arrive(w, moves).written == w.written
    decreases |moves|
  {
    if moves != [] {
      var line := if moves[0].Chatter? then Noise(moves[0].text) else Answer(w.answered);
      AnswersConcat(w.inFlight, [line]);
      assert [line][1..] == [];
      SpanNext(next, w.answered);
      ArriveInOrder(ArriveOne(w, moves[0]), moves[1..], next);
    }
  }

  /** A live client has read every answer and never closed its transport; a dead one closed it once. */
  ghost predicate Paired(s: Session) {
    if s.dead then s.closes == 1 else s.closes == 0 && InOrder(s.wire, |s.wire.written|)
  }

  /** The loop either gets the answer to the last line written, with nothing else left to read, or gives up. */
  lemma {:induction false} ReadPairs(s: Session, turns: nat -> ReadFate, i: nat)
    requires i <= MAX_LINES && !s.dead && s.closes == 0 && |s.wire.written| > 0
    requires InOrder(s.wire, |s.wire.written| - 1)
    ensures var x := ReadFrom(s, turns, i);
      && Paired(x.s) && x.s.wire.written == s.wire.written && (x.s.dead <==> x.k == None)
      && (x.k.Some? ==> x.k.value == |s.wire.written| - 1)
    decreases MAX_LINES - i
  {
    if i < MAX_LINES {
      var next := |s.wire.written| - 1;
      var now := s.(wire := Arrive(s.wire, turns(i).moves));
      ArriveInOrder(s.wire, turns(i).moves, next);
      if turns(i).Delivers? && now.wire.inFlight != [] {
        var rest := now.(wire := now.wire.(inFlight := now.wire.inFlight[1..]));
        HeadInOrder(now.wire, next);
        if now.wire.inFlight[0].Noise? { ReadPairs(rest, turns, i + 1); }
      }
    }
  }

  /** Taking the first line in flight. */
  lemma HeadInOrder(w: Wire, next: nat)
    requires InOrder(w, next) && w.inFlight != []
    ensures var rest := w.(inFlight := w.inFlight[1..]);
      match w.inFlight[0]
      case Noise(_) => InOrder(rest, next)
      case Answer(k) => k == next && InOrder(rest, next + 1)
  {
    if w.inFlight[0].Answer? {
      assert Answers(w.inFlight) == [w.inFlight[0].k] + Answers(w.inFlight[1..]);
      assert Answers(w.inFlight)[0] == w.inFlight[0].k;
      assert Span(next, w.answered)[1..] == Span(next + 1, w.answered);
      assert Answers(w.inFlight)[1..] == Answers(w.inFlight[1..]);
    } else {
      assert [] + Answers(w.inFlight[1..]) == Answers(w.inFlight[1..]);
    }
  }

  /** One command: the answer is the one to this very line; a client that gave up writes nothing; whoever
      gives up closes the transport, once. */
  lemma CmdPairs(s: Session, cmd: string, env: Env)
    requires Paired(s)
    ensures var x := CmdJson(s, cmd, env);
      && Paired(x.s) && (x.s.dead <==> x.k == None) && (s.dead ==> x.s == s)
      && (x.k.Some? ==> x.s.wire.written == s.wire.written + [cmd] && x.k.value == |s.wire.written|)
      && (x.k.None? ==> x.s.wire.written == s.wire.written || x.s.wire.written == s.wire.written + [cmd])
  {
    if !s.dead && env.write == Goes {
      var sent := s.(wire := s.wire.(written := s.wire.written + [cmd]));
      ReadPairs(sent, env.turns, 0);
    }
  }

  /** Lines without JSON and, behind them, the answer to line k. */
  ghost predicate NoiseThen(lines: seq<Line>, n: nat, k: nat) {
    |lines| == n + 1 && lines[n] == Answer(k) && forall j :: 0 <= j < n ==> lines[j].Noise?
  }

  /** The loop reads past seven lines of noise and gives up at the eighth. */
  lemma {:induction false} NoiseSkipped(s: Session, turns: nat -> ReadFate, i: nat, n: nat, k: nat)
    requires i <= 8 && NoiseThen(s.wire.inFlight, n, k) && forall j :: turns(j) == Delivers([])
    ensures var x := ReadFrom(s, turns, i);
      if i + n < 8 then x.k == Some(k) && x.s.dead == s.dead else x.k == None && x.s.dead
    decreases 8 - i
  {
    if i < 8 && n > 0 {
      var rest := s.(wire := s.wire.(inFlight := s.wire.inFlight[1..]));
      assert Arrive(s.wire, []) == s.wire;
      NoiseSkipped(rest, turns, i + 1, n - 1, k);
    }
  }

  // ----- calls -----

  /** Parsed JSON, as json.loads returns it: an int, a finite float by its exact value, or Endless, the
      infinities and NaN that json.loads reads as well. */
  datatype Json = Null | Bool(b: bool) | Int(n: int) | Real(x: real) | Endless | Str(s: string)
                | Array(items: seq<Json>) | Object(members: map<string, Json>)

  predicate IsNumber(v: Json) {
    v.Int? || v.Real?
  }

  function Amount(v: Json): real
    requires IsNumber(v)
  {
    if v.Int? then v.n as real else v.x
  }

  /** _get and _set of a register in the schema (the value already as text), snapshot, close. */
  datatype Call = Get(name: string) | Set(name: string, text: string) | Snapshot | Close

  /** What a call comes to; k is the line whose answer it is. */
  datatype Result = Got(k: nat, v: Json) | WasSet(k: nat) | Remote(k: nat, message: string)
                  | Listed(k: nat, items: seq<Json>) | Closed | TransportError

  function Command(call: Call): string {
    match call
    case Get(name) => "get " + name + " --json"
    case Set(name, text) => "set " + name + " " + text + " --json"
    case Snapshot => "list --json"
    case Close => ""
  }

  function DomainLow(ty: RegType): int {
    match ty
    case I8 => -0x80 case I16 => -0x8000 case I32 => -0x8000_0000
    case _ => 0
  }

  function DomainHigh(ty: RegType): int {
    match ty
    case U8 => 0xFF case U16 => 0xFFFF case U32 => 0xFFFF_FFFF
    case I8 => 0x7F case I16 => 0x7FFF case I32 => 0x7FFF_FFFF
    case _ => 0
  }

  /** in_domain: for FLOAT a number no larger than binary32's largest, and zero only if it is zero. */
  predicate InDomain(f32: Float32.Rounding, ty: RegType, v: Json) {
    match ty
    case Bool => v.Bool?
    case Float =>
      && IsNumber(v) && -Float32.FLT_MAX <= Amount(v) <= Float32.FLT_MAX
      && (Amount(v) == 0.0 || Float32.Magnitude(f32(Amount(v))) != 0)
    case _ => v.Int? && DomainLow(ty) <= v.n <= DomainHigh(ty)
  }

  /** What _get returns for a value it accepted: for FLOAT the binary32 the device holds. */
  function Held(f32: Float32.Rounding, ty: RegType, v: Json): Json
    requires InDomain(f32, ty, v)
  {
    if ty == Float then Real(Float32.RealOf(f32(Amount(v)))) else v
  }

  function TypeNamed(name: string): Option<RegType> {
    if name == "U8" then Some(U8) else if name == "U16" then Some(U16) else if name == "U32" then Some(U32)
    else if name == "I8" then Some(I8) else if name == "I16" then Some(I16) else if name == "I32" then Some(I32)
    else if name == "FLOAT" then Some(Float) else if name == "BOOL" then Some(RegType.Bool) else None
  }

  predicate HasText(m: map<string, Json>, key: string) {
    key in m && m[key].Str?
  }

  /** The checks of _list on name, type and permission. */
  predicate EntryTyped(e: Json) {
    && e.Object? && HasText(e.members, "name") && HasText(e.members, "type") && HasText(e.members, "perm")
    && TypeNamed(e.members["type"].s).Some?
    && e.members["perm"].s in ["RO", "RW"]
  }

  /** And on the value. */
  predicate EntryShaped(f32: Float32.Rounding, e: Json) {
    && EntryTyped(e)
    && "value" in e.members && InDomain(f32, TypeNamed(e.members["type"].s).value, e.members["value"])
  }

  /** What _list makes of the entry: a FLOAT's value becomes the binary32 the device holds. */
  function Rounded(f32: Float32.Rounding, e: Json): (r: Json)
    requires EntryShaped(f32, e)
    ensures EntryTyped(r) && forall key :: key != "value" ==>
              && (key in r.members <==> key in e.members)
              && (key in e.members ==> r.members[key] == e.members[key])
  {
    Object(e.members["value" := Held(f32, TypeNamed(e.members["type"].s).value, e.members["value"])])
  }

  function RoundedAll(f32: Float32.Rounding, items: seq<Json>): (r: seq<Json>)
    requires forall i :: 0 <= i < |items| ==> EntryShaped(f32, items[i])
    ensures |r| == |items|
  {
    seq(|items|, i requires 0 <= i < |items| => Rounded(f32, items[i]))
  }

  /** What a call makes of its answer; TransportError is an answer of the wrong shape. */
  function Judge(f32: Float32.Rounding, types: map<string, RegType>, call: Call, a: Json, k: nat): Result {
    match call
    case Close => Closed
    case Snapshot => if a.Array? then JudgeList(f32, a.items, k) else TransportError
    case Get(name) => if a.Object? then JudgeGet(f32, types, name, a.members, k) else TransportError
    case Set(_, _) => if a.Object? then JudgeSet(a.members, k) else TransportError
  }

  function JudgeList(f32: Float32.Rounding, items: seq<Json>, k: nat): Result {
    if forall i :: 0 <= i < |items| ==> EntryShaped(f32, items[i]) then Listed(k, RoundedAll(f32, items))
    else TransportError
  }

  function JudgeGet(f32: Float32.Rounding, types: map<string, RegType>, name: string, m: map<string, Json>,
                    k: nat): Result {
    if "error" in m then Refusal(m["error"], k)
    else if "value" in m && name in types && InDomain(f32, types[name], m["value"]) then
      Got(k, Held(f32, types[name], m["value"]))
    else TransportError
  }

  function JudgeSet(m: map<string, Json>, k: nat): Result {
    if "error" in m then Refusal(m["error"], k)
    else if "result" in m && m["result"] == Str("OK") then WasSet(k)
    else TransportError
  }

  function Refusal(error: Json, k: nat): Result {
    if error.Str? then Remote(k, error.s) else TransportError
  }

  datatype Done = Done(s: Session, r: Result)

  /** One call: the exchange, then the checks, which give up as well. */
  function Perform(answers: nat -> Json, f32: Float32.Rounding, types: map<string, RegType>, s: Session, call: Call,
                   env: Env): Done {
    if call.Close? then Done(Shutdown(s), Closed)
    else
      var x := CmdJson(s, Command(call), env);
      match x.k
      case None => Done(x.s, TransportError)
      case Some(k) =>
        var r := Judge(f32, types, call, answers(k), k);
        Done(if r.TransportError? then Fail(x.s) else x.s, r)
  }

  datatype Finished = Finished(s: Session, results: seq<Result>)

  /** Calls one after the other, each in its own environment. */
  function Run(answers: nat -> Json, f32: Float32.Rounding, types: map<string, RegType>, s: Session, calls: seq<Call>,
               envs: nat -> Env, j: nat): (f: Finished)
    requires j <= |calls|
    ensures |f.results| == |calls| - j
    decreases |calls| - j
  {
    if j == |calls| then Finished(s, [])
    else
      var first := Perform(answers, f32, types, s, calls[j], envs(j));
      var rest := Run(answers, f32, types, first.s, calls, envs, j + 1);
      Finished(rest.s, [first.r] + rest.results)
  }

  function IndexOf(r: Result): Option<nat> {
    match r
    case Got(k, _) => Some(k)
    case WasSet(k) => Some(k)
    case Remote(k, _) => Some(k)
    case Listed(k, _) => Some(k)
    case Closed => None
    case TransportError => None
  }

  /** The result is what this call makes of the device's answer to this call's own line, written after
      the first `from` lines. */
  ghost predicate OwnAnswer(answers: nat -> Json, f32: Float32.Rounding, types: map<string, RegType>, call: Call,
                            r: Result, written: seq<string>, from: nat) {
    match IndexOf(r)
    case None => true
    case Some(k) => from <= k < |written| && written[k] == Command(call) && r == Judge(f32, types, call, answers(k), k)
  }

  lemma JudgedAt(f32: Float32.Rounding, types: map<string, RegType>, call: Call, a: Json, k: nat)
    requires !call.Close?
    ensures var r := Judge(f32, types, call, a, k); IndexOf(r) == if r.TransportError? then None else Some(k)
  {
  }

  lemma PerformPairs(answers: nat -> Json, f32: Float32.Rounding, types: map<string, RegType>, s: Session, call: Call,
                     env: Env)
    requires Paired(s)
    ensures var x := Perform(answers, f32, types, s, call, env);
      && Paired(x.s) && s.wire.written <= x.s.wire.written && (s.dead ==> x.s == s && IndexOf(x.r) == None)
      && (x.r.TransportError? ==> x.s.dead)
      && OwnAnswer(answers, f32, types, call, x.r, x.s.wire.written, |s.wire.written|)
  {
    CmdPairs(s, Command(call), env);
    if !call.Close? {
      var x := CmdJson(s, Command(call), env);
      if x.k.Some? { JudgedAt(f32, types, call, answers(x.k.value), x.k.value); }
    }
  }

  lemma OwnLater(answers: nat -> Json, f32: Float32.Rounding, types: map<string, RegType>, call: Call, r: Result,
                 written: seq<string>, later: seq<string>, from: nat, earlier: nat)
    requires OwnAnswer(answers, f32, types, call, r, written, from) && written <= later && earlier <= from
    ensures OwnAnswer(answers, f32, types, call, r, later, earlier)
  {
  }

  /** Over any run: a client that gave up, or was closed, writes nothing more, and the transport is closed
      exactly once, by whichever comes first. */
  lemma {:induction false} SilentOnceDead(answers: nat -> Json, f32: Float32.Rounding, types: map<string, RegType>,
                                          s: Session, calls: seq<Call>, envs: nat -> Env, j: nat)
    requires j <= |calls| && Paired(s)
    ensures var f := Run(answers, f32, types, s, calls, envs, j);
      Paired(f.s) && s.wire.written <= f.s.wire.written && (s.dead ==> f.s == s)
    decreases |calls| - j
  {
    if j < |calls| {
      PerformPairs(answers, f32, types, s, calls[j], envs(j));
      SilentOnceDead(answers, f32, types, Perform(answers, f32, types, s, calls[j], envs(j)).s, calls, envs, j + 1);
    }
  }

  /** Over any run: every answer a call gets is the device's answer to that very call. */
  lemma {:induction false} AnswersArePaired(answers: nat -> Json, f32: Float32.Rounding, types: map<string, RegType>,
                                            s: Session, calls: seq<Call>, envs: nat -> Env, j: nat, i: nat)
    requires j <= i < |calls| && Paired(s)
    ensures var f := Run(answers, f32, types, s, calls, envs, j);
      OwnAnswer(answers, f32, types, calls[i], f.results[i - j], f.s.wire.written, |s.wire.written|)
    decreases |calls| - j
  {
    if i == j {
      FirstIsPaired(answers, f32, types, s, calls, envs, j);
    } else {
      var first := Perform(answers, f32, types, s, calls[j], envs(j));
      PerformPairs(answers, f32, types, s, calls[j], envs(j));
      AnswersArePaired(answers, f32, types, first.s, calls, envs, j + 1, i);
      var rest := Run(answers, f32, types, first.s, calls, envs, j + 1);
      OwnFrom(answers, f32, types, calls[i], rest.results[i - (j + 1)], rest.s.wire.written, |first.s.wire.written|,
              |s.wire.written|);
      RunStep(answers, f32, types, s, calls, envs, j, i);
    }
  }

  /** A run is its first call and the run of the others. */
  lemma RunStep(answers: nat -> Json, f32: Float32.Rounding, types: map<string, RegType>, s: Session, calls: seq<Call>,
                envs: nat -> Env, j: nat, i: nat)
    requires j < i < |calls|
    ensures var f := Run(answers, f32, types, s, calls, envs, j);
            var first := Perform(answers, f32, types, s, calls[j], envs(j));
            var rest := Run(answers, f32, types, first.s, calls, envs, j + 1);
      f.s == rest.s && f.results[i - j] == rest.results[i - (j + 1)]
  {
  }

  lemma OwnFrom(answers: nat -> Json, f32: Float32.Rounding, types: map<string, RegType>, call: Call, r: Result,
                written: seq<string>, from: nat, earlier: nat)
    requires OwnAnswer(answers, f32, types, call, r, written, from) && earlier <= from
    ensures OwnAnswer(answers, f32, types, call, r, written, earlier)
  {
  }

  lemma FirstIsPaired(answers: nat -> Json, f32: Float32.Rounding, types: map<string, RegType>, s: Session,
                      calls: seq<Call>, envs: nat -> Env, j: nat)
    requires j < |calls| && Paired(s)
    ensures var f := Run(answers, f32, types, s, calls, envs, j);
      OwnAnswer(answers, f32, types, calls[j], f.results[0], f.s.wire.written, |s.wire.written|)
  {
    var first := Perform(answers, f32, types, s, calls[j], envs(j));
    var rest := Run(answers, f32, types, first.s, calls, envs, j + 1);
    PerformPairs(answers, f32, types, s, calls[j], envs(j));
    SilentOnceDead(answers, f32, types, first.s, calls, envs, j + 1);
    OwnLater(answers, f32, types, calls[j], first.r, first.s.wire.written, rest.s.wire.written, |s.wire.written|,
             |s.wire.written|);
  }

  // ----- the client object -----

  /** Anything with write_line, read_line and close. */
  class Transport {
    var wire: Wire
    var closes: nat

    constructor ()
      ensures wire == Wire([], 0, []) && closes == 0
    {
      wire, closes := Wire([], 0, []), 0;
    }

    method WriteLine(line: string, fate: WriteFate) returns (ok: bool)
      modifies this`wire
      ensures ok <==> fate == Goes
      ensures wire == if fate == RaisesUnsent then old(wire) else old(wire).(written := old(wire).written + [line])
    {
      if fate != RaisesUnsent { wire := wire.(written := wire.written + [line]); }
      return fate == Goes;
    }

    /** A line, or None: nothing in time, or an exception. */
    method ReadLine(fate: ReadFate) returns (line: Option<Line>)
      modifies this`wire
      ensures var now := Arrive(old(wire), fate.moves);
        if fate.Delivers? && now.inFlight != [] then
          line == Some(now.inFlight[0]) && wire == now.(inFlight := now.inFlight[1..])
        else line == None && wire == now
    {
      wire := Arrive(wire, fate.moves);
      if !fate.Delivers? || wire.inFlight == [] { return None; }
      line := Some(wire.inFlight[0]);
      wire := wire.(inFlight := wire.inFlight[1..]);
    }

    method Shut()
      modifies this`closes
      ensures closes == old(closes) + 1
    {
      closes := closes + 1;
    }
  }

  class RegtableClient {
    const t: Transport
    var dead: bool

    ghost function State(): Session
      reads this, t
    {
      Session(dead, t.wire, t.closes)
    }

    constructor (t: Transport)
      ensures this.t == t && !dead
    {
      this.t, dead := t, false;
    }

    /** _fail, up to raising TransportError. */
    method GiveUp()
      modifies this`dead, t`closes
      ensures State() == Fail(old(State()))
    {
      dead := true;
      t.Shut();
    }

    /** close() */
    method CloseTransport()
      modifies this`dead, t`closes
      ensures State() == Shutdown(old(State()))
    {
      if dead { return; }
      dead := true;
      t.Shut();
    }

    /** _cmd_json: the index of the line whose answer arrived, or None for TransportError. */
    method SendCommand(cmd: string, env: Env) returns (k: Option<nat>)
      modifies this`dead, t
      ensures Exchange(State(), k) == CmdJson(old(State()), cmd, env)
    {
      if dead { return None; }
      var ok := t.WriteLine(cmd, env.write);
      if !ok {
        GiveUp();
        return None;
      }
      ghost var whole := ReadFrom(State(), env.turns, 0);
      var i := 0;
      while i < MAX_LINES
        invariant i <= MAX_LINES && ReadFrom(State(), env.turns, i) == whole
      {
        var line := t.ReadLine(env.turns(i));
        if line.None? { break; }
        if line.value.Answer? { return Some(line.value.k); }
        i := i + 1;
      }
      GiveUp();
      return None;
    }

    /** The loop of _list over the entries: check each, round a FLOAT's value. */
    method CheckList(f32: Float32.Rounding, items: seq<Json>, k: nat) returns (r: Result)
      ensures r == JudgeList(f32, items, k)
    {
      var table: seq<Json> := [];
      for i := 0 to |items|
        invariant |table| == i
        invariant forall j :: 0 <= j < i ==> EntryShaped(f32, items[j]) && table[j] == Rounded(f32, items[j])
      {
        if !EntryShaped(f32, items[i]) { return TransportError; }
        table := table + [Rounded(f32, items[i])];
      }
      assert table == RoundedAll(f32, items);
      return Listed(k, table);
    }

    /** _get, _set, snapshot, close. */
    method Do(answers: nat -> Json, f32: Float32.Rounding, types: map<string, RegType>, call: Call, env: Env)
      returns (r: Result)
      modifies this`dead, t
      ensures Done(State(), r) == Perform(answers, f32, types, old(State()), call, env)
    {
      if call.Close? {
        CloseTransport();
        return Closed;
      }
      var k := SendCommand(Command(call), env);
      if k.None? { return TransportError; }
      var a := answers(k.value);
      r := TransportError;
      if call.Snapshot? {
        if a.Array? { r := CheckList(f32, a.items, k.value); }
      } else if a.Object? {
        r := if call.Get? then JudgeGet(f32, types, call.name, a.members, k.value) else JudgeSet(a.members, k.value);
      }
      if r.TransportError? { GiveUp(); }
    }
  }
}
