/** The host's local write check and the device's own validation draw the same line, and a checked value
    arrives in the register it was meant for. */
module ClientChecks {
  import opened Words
  import opened Registers
  import opened CliLine
  import opened Client
  import opened Fingerprint
  import Cli
  import Text

  /** A Python value offered to a register that is not FLOAT. */
  datatype PyValue = PyBool(b: bool) | PyNumber(n: int) | PyOther

  /** Lower and upper limit of the local check: the schema's, or else the type's domain. */
  function Lowest(e: PyEntry): int {
    match e.min
    case Some(PyInt(v)) => v
    case _ => DomainLow(e.rtype)
  }

  function Highest(e: PyEntry): int {
    match e.max
    case Some(PyInt(v)) => v
    case _ => DomainHigh(e.rtype)
  }

  /** check_value, then the text _set sends: None when it raises. */
  function Checked(e: PyEntry, v: PyValue): Option<string> {
    if e.rtype == RegType.Bool then
      if v.PyBool? then Some(if v.b then "true" else "false") else None
    else if v.PyNumber? && Lowest(e) <= v.n <= Highest(e) then Some(Text.SignedDecimal(v.n))
    else None
  }

  /** The bounds, if any, lie within the type's domain, as discover() and the generator insist, or admit
      nothing at all. */
  predicate BoundsFit(e: Entry) {
    HasRange(e) ==>
      || Number(e.rtype, e.min) > Number(e.rtype, e.max)
      || (DomainLow(e.rtype) <= Number(e.rtype, e.min) && Number(e.rtype, e.max) <= DomainHigh(e.rtype))
  }

  ghost predicate Agrees(c: Text.Libc, e: Entry, n: int) {
    Checked(SchemaEntry(e), PyNumber(n)).Some? <==> Takes(c, e, Text.SignedDecimal(n))
  }

  /** The device makes a legal value of the text. */
  predicate Takes(c: Text.Libc, e: Entry, text: string) {
    var p := Text.ParseText(c, e.rtype, text);
    p.Raw? && Legal(e, Normal(e.rtype, p.raw))
  }

  lemma IntegerTaken(c: Text.Libc, e: Entry, n: int)
    requires e.rtype != Float && e.rtype != RegType.Bool
    ensures Takes(c, e, Text.SignedDecimal(n)) <==>
            && DomainLow(e.rtype) <= n <= DomainHigh(e.rtype)
            && (HasRange(e) ==> Number(e.rtype, e.min) <= n <= Number(e.rtype, e.max))
    ensures Takes(c, e, Text.SignedDecimal(n)) ==>
              Number(e.rtype, Text.ParseText(c, e.rtype, Text.SignedDecimal(n)).raw) == n
  {
    ParsedInteger(c, e.rtype, n);
    if Text.ParseText(c, e.rtype, Text.SignedDecimal(n)).Raw? { NumberTaken(e, n); }
  }

  /** What the parser of the type makes of a printed integer. */
  lemma ParsedInteger(c: Text.Libc, ty: RegType, n: int)
    requires ty != Float && ty != RegType.Bool
    ensures Text.ParseText(c, ty, Text.SignedDecimal(n)).Raw? <==>
              if IsSigned(ty) then -0x8000_0000 <= n < 0x8000_0000 else 0 <= n < 0x1_0000_0000
    ensures Text.ParseText(c, ty, Text.SignedDecimal(n)).Raw? ==>
              Text.ParseText(c, ty, Text.SignedDecimal(n)).raw == Unsigned(n)
  {
    if IsSigned(ty) {
      Text.SignedTextOfDecimal(n);
    } else if n >= 0 {
      Text.UnsignedTextOfDecimal(n);
    } else {
      NegativeRefused(n);
    }
  }

  lemma NumberTaken(e: Entry, n: int)
    requires e.rtype != Float && e.rtype != RegType.Bool
    requires if IsSigned(e.rtype) then -0x8000_0000 <= n < 0x8000_0000 else 0 <= n < 0x1_0000_0000
    ensures Number(e.rtype, Unsigned(n)) == n
    ensures Legal(e, Normal(e.rtype, Unsigned(n))) <==>
            && DomainLow(e.rtype) <= n <= DomainHigh(e.rtype)
            && (HasRange(e) ==> Number(e.rtype, e.min) <= n <= Number(e.rtype, e.max))
  {
    if IsSigned(e.rtype) { SignedUnsigned(n); }
  }

  lemma NegativeRefused(n: int)
    requires n < 0
    ensures Text.UnsignedText(Text.SignedDecimal(n)) == Text.Refused(TypeError)
  {
    Text.DecimalTrims(-n);
  }

  /** For an integer register the local check accepts exactly what the device makes a legal value of, on
      all integers, if and only if the bounds fit the type. */
  lemma ChecksAgreeIff(c: Text.Libc, e: Entry)
    requires e.rtype != Float && e.rtype != RegType.Bool
    ensures (forall n: int :: Agrees(c, e, n)) <==> BoundsFit(e)
  {
    if BoundsFit(e) {
      forall n: int ensures Agrees(c, e, n) { IntegerTaken(c, e, n); }
    } else {
      var low, high := Number(e.rtype, e.min), Number(e.rtype, e.max);
      IntegerTaken(c, e, low);
      IntegerTaken(c, e, high);
      assert !Agrees(c, e, low) || !Agrees(c, e, high);
    }
  }

  /** They can disagree: a U8 limited to 300 by its table takes no 256. */
  lemma LimitBeyondType(c: Text.Libc, e: Entry)
    requires e.rtype == U8 && e.min == 0 && e.max == 300
    ensures !BoundsFit(e) && Checked(SchemaEntry(e), PyNumber(256)) == Some(Text.SignedDecimal(256))
    ensures !Takes(c, e, Text.SignedDecimal(256))
  {
    IntegerTaken(c, e, 256);
  }

  /** The number a Python value stands for. */
  function NumberOf(v: PyValue): int {
    match v
    case PyBool(b) => if b then 1 else 0
    case PyNumber(n) => n
    case PyOther => 0
  }

  /** What the check lets out, the device reads as that very value, and finds legal. */
  lemma CheckedIsTaken(c: Text.Libc, e: Entry, v: PyValue)
    requires e.rtype != Float && BoundsFit(e) && Checked(SchemaEntry(e), v).Some?
    ensures var text := Checked(SchemaEntry(e), v).value;
      && IsWord(text) && text != JSON_FLAG && Typeable(text, |text| + 1) && Takes(c, e, text)
      && Number(e.rtype, Text.ParseText(c, e.rtype, text).raw) == NumberOf(v)
  {
    if e.rtype == RegType.Bool {
      assert Text.Lower("true") == "true" && Text.Lower("false") == "false";
    } else {
      ChecksAgreeIff(c, e);
      assert Agrees(c, e, v.n);
      IntegerTaken(c, e, v.n);
      DecimalWord(v.n);
    }
  }

  lemma DecimalWord(n: int)
    ensures IsWord(Text.SignedDecimal(n)) && Text.SignedDecimal(n) != JSON_FLAG
    ensures Typeable(Text.SignedDecimal(n), |Text.SignedDecimal(n)| + 1)
  {
    Text.DecimalReads(if n < 0 then -n else n);
    DigitsWord(Text.Decimal(if n < 0 then -n else n));
  }

  lemma DigitsWord(digits: string)
    requires digits != "" && forall k :: 0 <= k < |digits| ==> Text.IsDigit(digits[k])
    ensures IsWord(digits) && Typeable(digits, |digits| + 1) && digits != JSON_FLAG
    ensures IsWord("-" + digits) && Typeable("-" + digits, |digits| + 2) && "-" + digits != JSON_FLAG
  {
    assert ("-" + digits)[1] == digits[0] && JSON_FLAG[1] == '-';
    assert Text.IsDigit(digits[0]) && JSON_FLAG[0] == '-';
    forall k | 0 <= k < |digits| + 1 ensures !IsBlank(("-" + digits)[k]) {
      if k > 0 { assert ("-" + digits)[k] == digits[k - 1]; }
    }
  }

  // ----- from the client's call to the register -----

  lemma FlagLast(verb: string, name: string, text: string)
    requires verb != JSON_FLAG && name != JSON_FLAG && text != JSON_FLAG
    ensures WithoutFlag([verb, name, text, JSON_FLAG]) == [verb, name, text]
  {
    assert [verb] + [name] == [verb, name] && [verb, name] + [text] == [verb, name, text];
    assert [verb, name, text] + [JSON_FLAG] == [verb, name, text, JSON_FLAG] && [] + [verb] == [verb];
    WithoutFlagNext([], verb);
    WithoutFlagNext([verb], name);
    WithoutFlagNext([verb, name], text);
    WithoutFlagNext([verb, name, text], JSON_FLAG);
  }

  lemma SetSpaced(name: string, text: string)
    ensures Command(Set(name, text)) == Spaced(["set", name, text, JSON_FLAG])
  {
    SpacedNext([text, JSON_FLAG], [JSON_FLAG]);
    SpacedNext([name, text, JSON_FLAG], [text, JSON_FLAG]);
    SpacedNext(["set", name, text, JSON_FLAG], [name, text, JSON_FLAG]);
    assert "set" + " " == "set " && " " + JSON_FLAG == " --json";
    Chain("set ", name, " ", text, JSON_FLAG);
    assert "set " + name + " " + text + " " + JSON_FLAG == "set " + name + " " + text + " --json";
  }

  lemma SpacedNext(words: seq<string>, rest: seq<string>)
    requires |words| > 1 && words[1..] == rest
    ensures Spaced(words) == words[0] + " " + Spaced(rest) && (|rest| == 1 ==> Spaced(rest) == rest[0])
  {
  }

  lemma Chain(a: string, b: string, c: string, d: string, e: string)
    ensures a + b + c + d + c + e == a + (b + c + (d + c + e))
  {
  }

  lemma SetArguments(name: string, text: string)
    requires IsWord(name) && IsWord(text) && name != JSON_FLAG && text != JSON_FLAG
    ensures Arguments(Command(Set(name, text))) == ["set", name, text] && WantsJson(Command(Set(name, text)))
  {
    var words := ["set", name, text, JSON_FLAG];
    SetSpaced(name, text);
    assert words[3] == JSON_FLAG;
    SplitJoined(words);
    FlagLast("set", name, text);
  }

  /** The command a set sends makes the CLI write that text to that register. */
  lemma SetReachesRegister(t: Table, h: Hooks, c: Text.Libc, d: Device, name: string, text: string, i: nat)
    requires |d.cells| == |t| && Find(t, name) == Some(i)
    requires IsWord(name) && IsWord(text) && name != JSON_FLAG && text != JSON_FLAG
    ensures var w := Text.SetText(t, h, c, d, i, text);
      Cli.Execute(t, h, c, d, Command(Set(name, text))) == Cli.Executed(w.d, Cli.Done(w.r), true)
  {
    SetArguments(name, text);
    SetDispatched(t, h, c, d, name, text, i);
  }

  lemma SetDispatched(t: Table, h: Hooks, c: Text.Libc, d: Device, name: string, text: string, i: nat)
    requires |d.cells| == |t| && Find(t, name) == Some(i)
    ensures var w := Text.SetText(t, h, c, d, i, text);
      Cli.Dispatch(t, h, c, d, ["set", name, text], true) == Cli.Executed(w.d, Cli.Done(w.r), true)
  {
    assert Cli.CommandFrom("set", 0) == Some(2);
  }

  /** What the command consists of types as itself. */
  lemma CommandTypes(name: string, text: string)
    requires Typeable(name, |name| + 1) && Typeable(text, |text| + 1)
    ensures Typeable(Command(Set(name, text)), |Command(Set(name, text))| + 1)
    ensures |Command(Set(name, text))| == |name| + |text| + 12
  {
    PartsType("set ", name);
    PartsType("set " + name, " ");
    PartsType("set " + name + " ", text);
    PartsType("set " + name + " " + text, " --json");
  }

  lemma PartsType(a: string, b: string)
    requires Typeable(a, |a| + 1) && Typeable(b, |b| + 1)
    ensures Typeable(a + b, |a + b| + 1)
  {
  }

  /** From the checked value to the register, through the line editor: if the command fits the buffer then,
      unless the register is read-only or its hook objects, the register reads as the very number the caller
      gave; a command that does not fit is dropped whole. */
  lemma CheckedValueArrives(t: Table, h: Hooks, c: Text.Libc, d: Device, size: nat, typed: string, name: string, i: nat,
                            v: PyValue)
    requires ValidDevice(t, d) && Find(t, name) == Some(i) && Pending(typed) == ""
    requires IsWord(name) && Typeable(name, |name| + 1) && name != JSON_FLAG
    requires t[i].rtype != Float && BoundsFit(t[i]) && t[i].perm == RW && Checked(SchemaEntry(t[i]), v).Some?
    requires var p := Text.ParseText(c, t[i].rtype, Checked(SchemaEntry(t[i]), v).value);
      p.Raw? ==> Approved(t, h, d, i, p.raw)
    ensures var command := Command(Set(name, Checked(SchemaEntry(t[i]), v).value));
            var x := Cli.FedAll(t, h, c, size, typed, d, command + "\n");
      if |command| < size then
        x.answer == Cli.Done(Ok) && x.json && Number(t[i].rtype, Load(t[i].rtype, x.d.cells[i])) == NumberOf(v)
      else x == Cli.Executed(d, Cli.TooLong, false)
  {
    var text := Checked(SchemaEntry(t[i]), v).value;
    CheckedIsTaken(c, t[i], v);
    CommandTypes(name, text);
    Cli.LineFed(t, h, c, size, typed, d, Command(Set(name, text)));
    CommandArrives(t, h, c, d, name, i, text);
  }

  lemma CommandArrives(t: Table, h: Hooks, c: Text.Libc, d: Device, name: string, i: nat, text: string)
    requires ValidDevice(t, d) && Find(t, name) == Some(i) && t[i].perm == RW && t[i].rtype != Float
    requires IsWord(name) && IsWord(text) && name != JSON_FLAG && text != JSON_FLAG && Takes(c, t[i], text)
    requires Approved(t, h, d, i, Text.ParseText(c, t[i].rtype, text).raw)
    ensures var x := Cli.Execute(t, h, c, d, Command(Set(name, text)));
      && x.answer == Cli.Done(Ok) && x.json
      && Number(t[i].rtype, Load(t[i].rtype, x.d.cells[i]))
         == Number(t[i].rtype, Text.ParseText(c, t[i].rtype, text).raw)
  {
    SetReachesRegister(t, h, c, d, name, text, i);
    TextIsStored(t, h, c, d, i, text);
  }

  lemma TextIsStored(t: Table, h: Hooks, c: Text.Libc, d: Device, i: nat, text: string)
    requires ValidDevice(t, d) && i < |t| && t[i].perm == RW && t[i].rtype != Float && Takes(c, t[i], text)
    requires Approved(t, h, d, i, Text.ParseText(c, t[i].rtype, text).raw)
    ensures var w, raw := Text.SetText(t, h, c, d, i, text), Text.ParseText(c, t[i].rtype, text).raw;
      w.r == Ok && Number(t[i].rtype, Load(t[i].rtype, w.d.cells[i])) == Number(t[i].rtype, raw)
  {
    var raw := Text.ParseText(c, t[i].rtype, text).raw;
    SetRawEffect(t, h, d, i, raw);
  }
}
