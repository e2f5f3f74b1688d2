/** The CLI: a byte-at-a-time line editor over a fixed buffer, a tokeniser that works in place, and the
    commands. */
module Cli {
  import opened Words
  import opened Registers
  import opened CliLine
  import Core
  import Seqs
  import Text

  const MAX_ARGS := 4

  // ----- what a line does -----

  datatype Command = Command(name: string, argc: nat)

  /** The commands and their exact argument counts. */
  const COMMANDS := [Command("list", 1), Command("get", 2), Command("set", 3), Command("info", 2), Command("id", 1),
                     Command("fetch", 1), Command("help", 1)]

  datatype Answer =
    | Nothing | TooLong | TooManyArguments | UnknownCommand | Usage(command: nat)
    | Done(r: RegResult) | Value(i: nat, raw: uint32) | Info(i: nat, raw: uint32) | Listing(raws: seq<uint32>)
    | Identity | Fetch | Help

  /** The device after a line, the answer, and whether it goes out as JSON. */
  datatype Executed = Executed(d: Device, answer: Answer, json: bool)

  /** The first command of that name from k on. */
  function CommandFrom(word: string, k: nat): (r: Option<nat>)
    requires k <= |COMMANDS|
    ensures r.Some? ==> k <= r.value < |COMMANDS| && COMMANDS[r.value].name == word
    ensures r.Some? ==> forall j :: k <= j < r.value ==> COMMANDS[j].name != word
    ensures r.None? ==> forall j :: k <= j < |COMMANDS| ==> COMMANDS[j].name != word
    decreases |COMMANDS| - k
  {
    if k == |COMMANDS| then None else if COMMANDS[k].name == word then Some(k) else CommandFrom(word, k + 1)
  }

  /** The device after every entry from i on was read, and the values. */
  datatype ReadAll = ReadAll(d: Device, raws: seq<uint32>)

  function ReadFrom(t: Table, h: Hooks, d: Device, i: nat): (r: ReadAll)
    requires i <= |t| == |d.cells|
    ensures |r.d.cells| == |t| && |r.raws| == |t| - i
    decreases |t| - i
  {
    if i == |t| then ReadAll(d, [])
    else
      var f := GetRaw(t, h, d, i);
      var rest := ReadFrom(t, h, f.d, i + 1);
      ReadAll(rest.d, [f.raw] + rest.raws)
  }

  /** What the listing amounts to, when these values are read and entry i is next. */
  function ReadOn(t: Table, h: Hooks, d: Device, i: nat, before: seq<uint32>): ReadAll
    requires i <= |t| == |d.cells|
  {
    var rest := ReadFrom(t, h, d, i);
    ReadAll(rest.d, before + rest.raws)
  }

  /** A command with the right number of arguments. */
  function Perform(t: Table, h: Hooks, c: Text.Libc, d: Device, which: nat, args: seq<string>,
                   json: bool): (r: Executed)
    requires |t| == |d.cells| && which < |COMMANDS| && |args| == COMMANDS[which].argc
    ensures |r.d.cells| == |t|
  {
    if which == 0 then
      var all := ReadFrom(t, h, d, 0);
      Executed(all.d, Listing(all.raws), json)
    else if which == 4 then Executed(d, Identity, json)
    else if which == 5 then Executed(d, Fetch, json)
    else if which == 6 then Executed(d, Help, json)
    else
      match Find(t, args[1])
      case None => Executed(d, Done(NotFound), json)
      case Some(i) =>
        if which == 2 then
          var w := Text.SetText(t, h, c, d, i, args[2]);
          Executed(w.d, Done(w.r), json)
        else
          var f := GetRaw(t, h, d, i);
          Executed(f.d, if which == 1 then Value(i, f.raw) else Info(i, f.raw), json)
  }

  /** cli_process: anything but an exact command is an error, never a guess. */
  function Execute(t: Table, h: Hooks, c: Text.Libc, d: Device, line: string): (r: Executed)
    requires |t| == |d.cells|
    ensures |r.d.cells| == |t|
  {
    Dispatch(t, h, c, d, Arguments(line), WantsJson(line))
  }

  function Dispatch(t: Table, h: Hooks, c: Text.Libc, d: Device, args: seq<string>, json: bool): (r: Executed)
    requires |t| == |d.cells|
    ensures |r.d.cells| == |t|
  {
    if args == [] then Executed(d, Nothing, json)
    else if |args| > MAX_ARGS then Executed(d, TooManyArguments, json)
    else
      match CommandFrom(args[0], 0)
      case None => Executed(d, UnknownCommand, json)
      case Some(k) =>
        if |args| != COMMANDS[k].argc then Executed(d, Usage(k), json) else Perform(t, h, c, d, k, args, json)
  }

  /** One more byte after these. */
  ghost function Fed(t: Table, h: Hooks, c: Text.Libc, size: nat, typed: string, d: Device, b: char): (r: Executed)
    requires |t| == |d.cells|
    ensures |r.d.cells| == |t|
  {
    var line := if IsLineEnd(b) then Line(Pending(typed), size) else None;
    if line.Some? then Execute(t, h, c, d, line.value)
    else Executed(d, if IsLineEnd(b) && Outgrew(Pending(typed), size) then TooLong else Nothing, false)
  }

  /** Several more bytes: the device afterwards and what the last of them brought about. */
  ghost function FedAll(t: Table, h: Hooks, c: Text.Libc, size: nat, typed: string, d: Device,
                        bytes: string): (r: Executed)
    requires |t| == |d.cells|
    ensures |r.d.cells| == |t|
    decreases |bytes|
  {
    if bytes == "" then Executed(d, Nothing, false)
    else
      var front := bytes[..|bytes| - 1];
      Fed(t, h, c, size, typed + front, FedAll(t, h, c, size, typed, d, front).d, bytes[|bytes| - 1])
  }

  lemma {:induction false} TypingDoesNothing(t: Table, h: Hooks, c: Text.Libc, size: nat, typed: string, d: Device,
                                             line: string)
    requires |t| == |d.cells| && forall k :: 0 <= k < |line| ==> !IsLineEnd(line[k])
    ensures FedAll(t, h, c, size, typed, d, line) == Executed(d, Nothing, false)
    decreases |line|
  {
    if line != "" { TypingDoesNothing(t, h, c, size, typed, d, line[..|line| - 1]); }
  }

  /** A line that types as itself is executed at its line end if it fits the buffer, and dropped if not. */
  lemma LineFed(t: Table, h: Hooks, c: Text.Libc, size: nat, typed: string, d: Device, line: string)
    requires |t| == |d.cells| && Pending(typed) == "" && Typeable(line, |line| + 1)
    ensures FedAll(t, h, c, size, typed, d, line + "\n")
         == if |line| < size then Execute(t, h, c, d, line) else Executed(d, TooLong, false)
  {
    assert (line + "\n")[..|line|] == line;
    TypingDoesNothing(t, h, c, size, typed, d, line);
    TypedSoFar(typed, line, size);
    PlainLine(line, size);
  }

  // ----- the tokeniser -----

  method SkipBlanks(line: array<char>, p: nat, ghost text: string) returns (q: nat)
    requires p <= |text| < line.Length && line[p..|text|] == text[p..] && line[|text|] == '\0'
    ensures q == p + BlankRun(text[p..])
  {
    q := p;
    while line[q] == ' ' || line[q] == '\t'
      invariant p <= q <= |text| && q + BlankRun(text[q..]) == p + BlankRun(text[p..])
      decreases |text| - q
    {
      assert text[q] == line[p..|text|][q - p];
      assert text[q..][1..] == text[q + 1..];
      q := q + 1;
    }
    assert q < |text| ==> text[q] == line[p..|text|][q - p];
  }

  method WordEnd(line: array<char>, p: nat, ghost text: string) returns (q: nat)
    requires p <= |text| < line.Length && line[p..|text|] == text[p..] && line[|text|] == '\0' && '\0' !in text
    ensures q == p + WordRun(text[p..])
  {
    q := p;
    while line[q] != '\0' && line[q] != ' ' && line[q] != '\t'
      invariant p <= q <= |text| && q + WordRun(text[q..]) == p + WordRun(text[p..])
      decreases |text| - q
    {
      assert text[q] == line[p..|text|][q - p];
      assert text[q..][1..] == text[q + 1..];
      q := q + 1;
    }
    assert q < |text| ==> text[q] == line[p..|text|][q - p];
  }

  /** The C string at this place of the line is the argument. */
  ghost predicate ArgAt(line: seq<char>, at: nat, arg: string) {
    at + |arg| < |line| && line[at..at + |arg|] == arg && line[at + |arg|] == '\0' && '\0' !in arg
  }

  /** Read the C string at this place. */
  method StringAt(line: array<char>, at: nat, ghost arg: string) returns (s: string)
    requires ArgAt(line[..], at, arg)
    ensures s == arg && '\0' !in s
  {
    s := "";
    forall k | 0 <= k < |arg| ensures line[at + k] == arg[k] {
      assert line[..][at..at + |arg|][k] == line[at + k];
    }
    while line[at + |s|] != '\0'
      invariant |s| <= |arg| && s == arg[..|s|]
      decreases |arg| - |s|
    {
      s := s + [line[at + |s|]];
    }
  }

  /** The arguments found so far, as argv holds them: no more than fit, each ending by p. */
  ghost predicate Found(line: seq<char>, argv: seq<nat>, tooMany: bool, args: seq<string>, p: nat) {
    && |argv| == (if |args| <= MAX_ARGS then |args| else MAX_ARGS) && (tooMany <==> |args| > MAX_ARGS)
    && forall k :: 0 <= k < |argv| ==> ArgAt(line, argv[k], args[k]) && argv[k] + |args[k]| <= p
  }

  /** Later writes do not disturb what was found. */
  lemma StillFound(line: seq<char>, after: seq<char>, argv: seq<nat>, tooMany: bool, args: seq<string>, p: nat, q: nat)
    requires Found(line, argv, tooMany, args, p) && |after| == |line| && p <= q
    requires forall k :: 0 <= k <= p && k < |line| ==> after[k] == line[k]
    ensures Found(after, argv, tooMany, args, q)
  {
    forall k | 0 <= k < |argv| ensures ArgAt(after, argv[k], args[k]) {
      assert after[argv[k]..argv[k] + |args[k]|] == line[argv[k]..argv[k] + |args[k]|];
    }
  }

  /** The word between start and end joins the arguments, unless it is the flag. */
  method Keep(line: array<char>, start: nat, end: nat, argv: seq<nat>, tooMany: bool, ghost args: seq<string>,
              ghost word: string)
    returns (argvNow: seq<nat>, tooManyNow: bool)
    requires Found(line[..], argv, tooMany, args, start) && start <= end && end == start + |word|
    requires ArgAt(line[..], start, word)
    ensures Found(line[..], argvNow, tooManyNow, args + [word], end)
  {
    if |argv| == MAX_ARGS { return argv, true; }
    return argv + [start], tooMany;
  }

  /** A write behind the word leaves it in place, now ended by a NUL. */
  lemma CutWord(before: seq<char>, after: seq<char>, text: string, start: nat, end: nat)
    requires start <= end <= |text| < |before| == |after| && before[start..|text|] == text[start..] && '\0' !in text
    requires forall k :: 0 <= k < |before| && k != end ==> after[k] == before[k]
    requires after[end] == '\0'
    ensures ArgAt(after, start, text[start..end])
    ensures end < |text| ==> after[end + 1..|text|] == text[end + 1..]
  {
    forall k | start <= k < |text| ensures before[k] == text[k] {
      assert before[start..|text|][k - start] == text[start..][k - start];
    }
    assert after[start..end] == text[start..end];
  }

  /** End the word in place and sort it. */
  method TakeWord(line: array<char>, ghost text: string, start: nat, end: nat, argv: seq<nat>, tooMany: bool,
                  ghost words: seq<string>) returns (p: nat, argvNow: seq<nat>, tooManyNow: bool, flag: bool)
    requires start < end <= |text| < line.Length && line[start..|text|] == text[start..] && line[|text|] == '\0'
    requires '\0' !in text
    requires Found(line[..], argv, tooMany, WithoutFlag(words), start)
    modifies line
    ensures p == if end < |text| then end + 1 else end
    ensures line[p..|text|] == text[p..] && line[|text|] == '\0'
    ensures flag <==> text[start..end] == JSON_FLAG
    ensures Found(line[..], argvNow, tooManyNow, WithoutFlag(words + [text[start..end]]), p)
  {
    ghost var before := line[..];
    assert before[start..|text|] == line[start..|text|];
    p := end;
    if line[end] != '\0' {
      line[end] := '\0';
      p := end + 1;
    }
    CutWord(before, line[..], text, start, end);
    StillFound(before, line[..], argv, tooMany, WithoutFlag(words), start, start);
    WithoutFlagNext(words, text[start..end]);
    var word := StringAt(line, start, text[start..end]);
    flag := word == JSON_FLAG;
    argvNow, tooManyNow := argv, tooMany;
    if !flag { argvNow, tooManyNow := Keep(line, start, end, argv, tooMany, WithoutFlag(words), word); }
  }

  /** cli_split: the arguments in order, each ended by a NUL written into the line, and whether the flag was
      among the words. */
  method Split(line: array<char>, ghost text: string) returns (argv: seq<nat>, tooMany: bool, json: bool)
    requires |text| < line.Length && line[..|text|] == text && line[|text|] == '\0' && '\0' !in text
    modifies line
    ensures json <==> WantsJson(text)
    ensures Found(line[..], argv, tooMany, Arguments(text), line.Length)
  {
    argv, tooMany, json := [], false, false;
    var p := 0;
    ghost var words: seq<string> := [];
    assert text[0..] == text;
    while true
      invariant p <= |text| && line[p..|text|] == text[p..] && line[|text|] == '\0'
      invariant WordsOf(text) == words + WordsOf(text[p..])
      invariant json <==> JSON_FLAG in words
      invariant Found(line[..], argv, tooMany, WithoutFlag(words), p)
      decreases |text| - p
    {
      var start := SkipBlanks(line, p, text);
      Untouched(line[..], text, p, start);
      if line[start] == '\0' {
        NoMoreWords(text, p);
        break;
      }
      var end := WordEnd(line, start, text);
      NextWord(text, p, start, end);
      Seqs.Assoc(words, [text[start..end]], WordsOf(text[end..]));
      FlagAmong(words, text[start..end]);
      StillFound(line[..], line[..], argv, tooMany, WithoutFlag(words), p, start);
      var flag;
      p, argv, tooMany, flag := TakeWord(line, text, start, end, argv, tooMany, words);
      json := json || flag;
      words := words + [text[start..end]];
    }
    assert words + [] == words;
    StillFound(line[..], line[..], argv, tooMany, WithoutFlag(words), p, line.Length);
  }

  lemma FlagAmong(words: seq<string>, w: string)
    ensures JSON_FLAG in words + [w] <==> JSON_FLAG in words || w == JSON_FLAG
  {
  }

  lemma Untouched(line: seq<char>, text: string, p: nat, start: nat)
    requires p <= start <= |text| < |line| && line[p..|text|] == text[p..] && line[|text|] == '\0' && '\0' !in text
    ensures line[start..|text|] == text[start..] && (line[start] == '\0' <==> start == |text|)
  {
    forall k | start <= k < |text| ensures line[k] == text[k] {
      assert line[p..|text|][k - p] == text[p..][k - p];
    }
  }

  // ----- the session -----

  method FindCommand(word: string) returns (which: Option<nat>)
    ensures which == CommandFrom(word, 0)
  {
    for k := 0 to |COMMANDS|
      invariant CommandFrom(word, 0) == CommandFrom(word, k)
    {
      if COMMANDS[k].name == word { return Some(k); }
    }
    return None;
  }

  class RegCli {
    const table: Core.RegTable
    const libc: Text.Libc
    /** char buf[REGTABLE_CLI_BUF_SIZE], part of the struct itself. */
    const buf: array<char>
    var pos: nat
    var overflow: bool

    /** Every byte fed so far. */
    ghost var typed: string
    /** Every line executed so far. */
    ghost var ran: seq<string>

    /** The line so far is what was typed since the last line end, backspaces applied, unless it was cut. */
    ghost predicate Valid()
      reads this, buf, table
    {
      && table.Bound() && Text.Conforming(libc)
      && Holds(Pending(typed))
      && ran == Lines(typed, buf.Length)
    }

    ghost predicate Holds(bytes: string)
      reads this, buf
    {
      && pos < buf.Length
      && (overflow <==> Outgrew(bytes, buf.Length))
      && (!overflow ==> buf[..pos] == Edited(bytes))
    }

    /** regcli_init */
    constructor (table: Core.RegTable, libc: Text.Libc, size: nat)
      requires table.Bound() && Text.Conforming(libc) && size > 0
      ensures Valid() && this.table == table && this.libc == libc && buf.Length == size && fresh(buf)
      ensures typed == "" && ran == []
    {
      this.table, this.libc, this.buf := table, libc, new char[size];
      pos, overflow, typed, ran := 0, false, "", [];
    }

    /** cmd_list: every register is read once, in table order. */
    method List(h: Hooks) returns (raws: seq<uint32>)
      requires table.Bound()
      modifies table`cells
      ensures table.Bound() && ReadAll(table.State(), raws) == ReadFrom(table.entries, h, old(table.State()), 0)
    {
      raws := [];
      ghost var t, whole := table.entries, ReadOn(table.entries, h, table.State(), 0, []);
      assert [] + ReadFrom(t, h, table.State(), 0).raws == ReadFrom(t, h, table.State(), 0).raws;
      var i := 0;
      while i < table.count
        invariant i <= table.count && table.Bound() && table.entries == t
        invariant ReadOn(t, h, table.State(), i, raws) == whole
      {
        raws := ListNext(h, i, raws);
        i := i + 1;
      }
      assert raws + [] == raws;
    }

    /** One turn of the loop. */
    method ListNext(h: Hooks, i: nat, before: seq<uint32>) returns (raws: seq<uint32>)
      requires table.Bound() && i < table.count
      modifies table`cells
      ensures table.Bound()
      ensures ReadOn(table.entries, h, table.State(), i + 1, raws)
           == ReadOn(table.entries, h, old(table.State()), i, before)
    {
      var raw := table.GetRaw(h, i);
      Seqs.Assoc(before, [raw], ReadFrom(table.entries, h, table.State(), i + 1).raws);
      return before + [raw];
    }

    /** The command handlers. */
    method Run(h: Hooks, which: nat, args: seq<string>, json: bool) returns (answer: Answer)
      requires table.Bound() && Text.Conforming(libc)
      requires which < |COMMANDS| && |args| == COMMANDS[which].argc && forall k :: 0 <= k < |args| ==> '\0' !in args[k]
      modifies table`cells, table`dirty
      ensures table.Bound()
      ensures Executed(table.State(), answer, json)
           == Perform(table.entries, h, libc, old(table.State()), which, args, json)
    {
      if which == 0 {
        var raws := List(h);
        return Listing(raws);
      }
      if which == 4 { return Identity; }
      if which == 5 { return Fetch; }
      if which == 6 { return Help; }
      var e := table.FindEntry(args[1]);
      if e.None? { return Done(NotFound); }
      if which == 2 {
        var r := Text.SetStr(table, h, libc, e.value, args[2]);
        return Done(r);
      }
      var raw := table.GetRaw(h, e.value);
      return if which == 1 then Value(e.value, raw) else Info(e.value, raw);
    }

    /** The words argv points at. */
    method ReadArguments(argv: seq<nat>, ghost args: seq<string>) returns (words: seq<string>)
      requires Found(buf[..], argv, false, args, buf.Length)
      ensures words == args && forall k :: 0 <= k < |words| ==> '\0' !in words[k]
    {
      words := [];
      for k := 0 to |argv|
        invariant |words| == k && words == args[..k] && forall j :: 0 <= j < k ==> '\0' !in words[j]
      {
        var word := StringAt(buf, argv[k], args[k]);
        words := words + [word];
      }
    }

    /** cli_process: split the line in place, then run exactly the command it spells out. */
    method Process(h: Hooks, ghost text: string) returns (answer: Answer, json: bool)
      requires table.Bound() && Text.Conforming(libc)
      requires |text| < buf.Length && buf[..|text|] == text && buf[|text|] == '\0' && '\0' !in text
      modifies buf, table`cells, table`dirty
      ensures table.Bound()
      ensures Executed(table.State(), answer, json) == Execute(table.entries, h, libc, old(table.State()), text)
    {
      var argv, tooMany;
      argv, tooMany, json := Split(buf, text);
      if tooMany { return TooManyArguments, json; }
      if |argv| == 0 { return Nothing, json; }
      var args := ReadArguments(argv, Arguments(text));
      var which := FindCommand(args[0]);
      if which.None? { return UnknownCommand, json; }
      if |args| != COMMANDS[which.value].argc { return Usage(which.value), json; }
      answer := Run(h, which.value, args, json);
    }

    /** A byte that ends no line: erase, keep, or mark the line as cut. */
    method Edit(b: char, ghost before: string)
      requires Holds(before) && !IsLineEnd(b)
      modifies this`pos, this`overflow, buf
      ensures Holds(before + [b])
    {
      OutgrewNext(before, b, buf.Length);
      EditedNext(before, b);
      if b as int == 8 || b as int == 0x7F {
        if pos > 0 { pos := pos - 1; }
        return;
      }
      if pos < buf.Length - 1 {
        buf[pos] := b;
        pos := pos + 1;
      } else {
        overflow := true;
      }
    }

    /** A line end: run the line, unless it is empty or was cut. */
    method EndLine(h: Hooks, ghost before: string) returns (answer: Answer, json: bool)
      requires Holds(before) && table.Bound() && Text.Conforming(libc)
      modifies this`pos, this`overflow, buf, table`cells, table`dirty
      ensures Holds("") && table.Bound()
      ensures var line := Line(before, buf.Length);
        if line.Some? then
          Executed(table.State(), answer, json) == Execute(table.entries, h, libc, old(table.State()), line.value)
        else
          && table.State() == old(table.State()) && !json
          && answer == if Outgrew(before, buf.Length) then TooLong else Nothing
    {
      answer, json := Nothing, false;
      if overflow {
        answer, overflow, pos := TooLong, false, 0;
      } else if pos > 0 {
        buf[pos] := '\0';
        ghost var text := CString(Edited(before));
        assert buf[..pos] == Edited(before);
        assert buf[..|text|] == Edited(before)[..|text|];
        answer, json := Process(h, text);
        pos := 0;
      }
      NothingTyped(buf.Length);
    }

    /** regcli_feed: one received byte. */
    method Feed(h: Hooks, b: char) returns (answer: Answer, json: bool)
      requires Valid()
      modifies this`pos, this`overflow, this`typed, this`ran, buf, table`cells, table`dirty
      ensures Valid() && typed == old(typed) + [b]
      ensures Executed(table.State(), answer, json)
           == Fed(table.entries, h, libc, buf.Length, old(typed), old(table.State()), b)
      ensures var line := if IsLineEnd(b) then Line(Pending(old(typed)), buf.Length) else None;
        ran == if line.Some? then old(ran) + [line.value] else old(ran)
    {
      answer, json := Nothing, false;
      ghost var before := Pending(typed);
      FeedNext(typed, b, buf.Length);
      typed := typed + [b];
      if b == '\n' || b == '\r' {
        ghost var line := Line(before, buf.Length);
        answer, json := EndLine(h, before);
        if line.Some? { ran := ran + [line.value]; }
      } else {
        Edit(b, before);
      }
    }
  }

  lemma NothingTyped(size: nat)
    requires size > 0
    ensures Edited("") == "" && !Outgrew("", size)
  {
  }

  /** What one more byte makes of the stream. */
  lemma FeedNext(typed: string, b: char, size: nat)
    requires size > 0
    ensures IsLineEnd(b) ==> Pending(typed + [b]) == "" && Edited("") == "" && !Outgrew("", size)
    ensures !IsLineEnd(b) ==>
              Pending(typed + [b]) == Pending(typed) + [b] && Lines(typed + [b], size) == Lines(typed, size)
    ensures IsLineEnd(b) ==> Lines(typed + [b], size) == match Line(Pending(typed), size)
                                                         case None => Lines(typed, size)
                                                         case Some(line) => Lines(typed, size) + [line]
  {
    assert (typed + [b])[..|typed|] == typed;
  }
}
