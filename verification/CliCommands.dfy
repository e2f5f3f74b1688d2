/** What each line of the CLI does to the registers and what it answers, by the words on it. */
module CliCommands {
  import opened Words
  import opened Registers
  import opened CliLine
  import opened Cli
  import Text

  // ----- the commands -----

  /** The seven commands and how many words each takes. */
  lemma CommandWords()
    ensures |COMMANDS| == 7
    ensures COMMANDS[0] == Command("list", 1) && COMMANDS[1] == Command("get", 2) && COMMANDS[2] == Command("set", 3)
    ensures COMMANDS[3] == Command("info", 2) && COMMANDS[4] == Command("id", 1) && COMMANDS[5] == Command("fetch", 1)
    ensures COMMANDS[6] == Command("help", 1)
  {
  }

  lemma NamesDiffer(j: nat, k: nat)
    requires j < k < 7
    ensures COMMANDS[j].name != COMMANDS[k].name
  {
    CommandWords();
    assert |COMMANDS[j].name| != |COMMANDS[k].name| || COMMANDS[j].name[0] != COMMANDS[k].name[0];
  }

  lemma Found(word: string, k: nat)
    requires k < 7 && word == COMMANDS[k].name
    ensures CommandFrom(word, 0) == Some(k)
  {
    var r := CommandFrom(word, 0);
    if r.Some? && r.value < k { NamesDiffer(r.value, k); }
  }

  /** The words of a command with the right number of arguments. */
  lemma Dispatched(t: Table, h: Hooks, c: Text.Libc, d: Device, line: string, k: nat)
    requires |t| == |d.cells| && k < 7
    requires var args := Arguments(line); |args| == COMMANDS[k].argc && args[0] == COMMANDS[k].name
    ensures Execute(t, h, c, d, line) == Perform(t, h, c, d, k, Arguments(line), WantsJson(line))
  {
    Found(Arguments(line)[0], k);
  }

  // ----- reading -----

  /** get answers with the value the register yields, its on_read included, and leaves it in the variable. */
  lemma GetLine(t: Table, h: Hooks, c: Text.Libc, d: Device, line: string, name: string, i: nat, v: uint32)
    requires |t| == |d.cells| && Arguments(line) == ["get", name]
    requires Find(t, name) == Some(i) && YieldsNow(t, h, d, i, v)
    ensures var x := Execute(t, h, c, d, line);
      x.answer == Value(i, v) && x.json == WantsJson(line) && Holding(t, d, x.d, i, v)
  {
    Dispatched(t, h, c, d, line, 1);
    GetRawEffect(t, h, d, i, v);
  }

  /** So does info, with the rest of the entry. */
  lemma InfoLine(t: Table, h: Hooks, c: Text.Libc, d: Device, line: string, name: string, i: nat, v: uint32)
    requires |t| == |d.cells| && Arguments(line) == ["info", name]
    requires Find(t, name) == Some(i) && YieldsNow(t, h, d, i, v)
    ensures var x := Execute(t, h, c, d, line);
      x.answer == Info(i, v) && x.json == WantsJson(line) && Holding(t, d, x.d, i, v)
  {
    Dispatched(t, h, c, d, line, 3);
    GetRawEffect(t, h, d, i, v);
  }

  /** Reading the entries from i on leaves the earlier ones alone, and every dirty bit. */
  lemma {:induction false} ReadLeaves(t: Table, h: Hooks, d: Device, i: nat, k: nat)
    requires i <= |t| == |d.cells| && k < |t|
    ensures var r := ReadFrom(t, h, d, i).d;
      r.dirty == d.dirty && (k < i || !t[k].onRead ==> r.cells[k] == d.cells[k])
    decreases |t| - i
  {
    if i < |t| { ReadLeaves(t, h, GetRaw(t, h, d, i).d, i + 1, k); }
  }

  lemma {:induction false} ReadYields(t: Table, h: Hooks, d: Device, i: nat, k: nat, v: uint32)
    requires i <= k < |t| == |d.cells| && Yields(t, h, d, k, v)
    ensures var r := ReadFrom(t, h, d, i); r.raws[k - i] == v && Load(t[k].rtype, r.d.cells[k]) == v
    decreases |t| - i
  {
    var f := GetRaw(t, h, d, i);
    if i == k {
      YieldsHere(t, h, d, k, v);
      GetRawEffect(t, h, d, k, v);
      ReadLeaves(t, h, f.d, i + 1, k);
    } else {
      OthersYield(t, h, d, k, i, v);
      ReadYields(t, h, f.d, i + 1, k, v);
    }
  }

  /** list answers with what every register yields, in table order, leaves it in its variable, and changes
      nothing else. */
  lemma ListLine(t: Table, h: Hooks, c: Text.Libc, d: Device, line: string, raws: seq<uint32>)
    requires |t| == |d.cells| == |raws| && Arguments(line) == ["list"]
    requires forall k :: 0 <= k < |t| ==> Yields(t, h, d, k, raws[k])
    ensures var x := Execute(t, h, c, d, line);
      && x.answer == Listing(raws) && x.json == WantsJson(line) && x.d.dirty == d.dirty
      && forall k :: 0 <= k < |t| ==>
           Load(t[k].rtype, x.d.cells[k]) == raws[k] && (!t[k].onRead ==> x.d.cells[k] == d.cells[k])
  {
    Dispatched(t, h, c, d, line, 0);
    var all := ReadFrom(t, h, d, 0);
    forall k | 0 <= k < |t|
      ensures all.raws[k] == raws[k] && Load(t[k].rtype, all.d.cells[k]) == raws[k]
      ensures !t[k].onRead ==> all.d.cells[k] == d.cells[k]
    {
      ReadYields(t, h, d, 0, k, raws[k]);
      ReadLeaves(t, h, d, 0, k);
    }
    if |t| > 0 { ReadLeaves(t, h, d, 0, 0); }
  }

  // ----- the other lines -----

  /** set writes the text to the register of that name. */
  lemma SetLine(t: Table, h: Hooks, c: Text.Libc, d: Device, line: string, name: string, text: string, i: nat)
    requires |t| == |d.cells| && Arguments(line) == ["set", name, text] && Find(t, name) == Some(i)
    ensures var w := Text.SetText(t, h, c, d, i, text);
      Execute(t, h, c, d, line) == Executed(w.d, Done(w.r), WantsJson(line))
  {
    Dispatched(t, h, c, d, line, 2);
  }

  /** A name no register has. */
  lemma UnknownName(t: Table, h: Hooks, c: Text.Libc, d: Device, line: string, name: string)
    requires |t| == |d.cells| && Find(t, name) == None
    requires var args := Arguments(line);
      args == ["get", name] || args == ["info", name] || (|args| == 3 && args[0] == "set" && args[1] == name)
    ensures Execute(t, h, c, d, line) == Executed(d, Done(NotFound), WantsJson(line))
  {
    var args := Arguments(line);
    if |args| == 3 {
      Dispatched(t, h, c, d, line, 2);
    } else if args[0] == "get" {
      Dispatched(t, h, c, d, line, 1);
    } else {
      Dispatched(t, h, c, d, line, 3);
    }
  }

  /** id, fetch and help say who the device is, and touch no register. */
  lemma InformationLine(t: Table, h: Hooks, c: Text.Libc, d: Device, line: string)
    requires |t| == |d.cells| && Arguments(line) in [["id"], ["fetch"], ["help"]]
    ensures Execute(t, h, c, d, line)
         == Executed(d, if Arguments(line) == ["id"] then Identity
                        else if Arguments(line) == ["fetch"] then Fetch else Help, WantsJson(line))
  {
    var args := Arguments(line);
    Dispatched(t, h, c, d, line, if args == ["id"] then 4 else if args == ["fetch"] then 5 else 6);
  }

  /** A line that is no command with its exact number of words touches nothing either: too many words, a name that
      is not a command, a wrong count, whichever applies first. */
  lemma MisfitLine(t: Table, h: Hooks, c: Text.Libc, d: Device, line: string, k: nat)
    requires |t| == |d.cells| && k < 7
    ensures var args, x := Arguments(line), Execute(t, h, c, d, line);
      && (args == [] ==> x == Executed(d, Nothing, WantsJson(line)))
      && (|args| > 4 ==> x == Executed(d, TooManyArguments, WantsJson(line)))
      && (1 <= |args| <= 4 && args[0] == COMMANDS[k].name && |args| != COMMANDS[k].argc ==>
            x == Executed(d, Usage(k), WantsJson(line)))
  {
    var args := Arguments(line);
    if args != [] && args[0] == COMMANDS[k].name { Found(args[0], k); }
  }

  lemma UnknownLine(t: Table, h: Hooks, c: Text.Libc, d: Device, line: string)
    requires |t| == |d.cells| && 1 <= |Arguments(line)| <= 4
    requires Arguments(line)[0] !in ["list", "get", "set", "info", "id", "fetch", "help"]
    ensures Execute(t, h, c, d, line) == Executed(d, UnknownCommand, WantsJson(line))
  {
    CommandWords();
  }
}
