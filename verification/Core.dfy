/** Change tracking: the dirty bitmap, the poll that drains it through the on_change hooks, and why
    no change is lost even when the hooks themselves write registers. */
module Core {
  import opened Words
  import opened Registers
  import Bitmap
  import Bitwise
  import Seqs

  /** What application code does to the table: between polls, or from inside an on_change hook.
      Every write and read carries the answers the synchronous hooks give at that moment. */
  datatype Action =
    | Write(h: Hooks, i: nat, raw: uint32)  // reg_set_raw
    | Read(h: Hooks, i: nat)                // reg_get_raw
    | Poke(i: nat, cell: uint32)            // *ptr = ..., no library call
    | Mark(entry: int)                      // reg_mark_dirty, with any entry pointer

  /** One action. An entry outside the table is another table's business. */
  function Act(t: Table, d: Device, a: Action): (r: Device)
    requires |d.cells| == |t|
    ensures |r.cells| == |t|
  {
    match a
    case Write(h, i, raw) => if i < |t| then SetRaw(t, h, d, i, raw).d else d
    case Read(h, i) => if i < |t| then GetRaw(t, h, d, i).d else d
    case Poke(i, cell) => if i < |t| then d.(cells := d.cells[i := Store(t[i].rtype, cell)]) else d
    case Mark(i) => if 0 <= i < |t| then d.(dirty := d.dirty + {i}) else d
  }

  function ActAll(t: Table, d: Device, actions: seq<Action>): (r: Device)
    requires |d.cells| == |t|
    ensures |r.cells| == |t|
    decreases |actions|
  {
    if actions == [] then d else ActAll(t, Act(t, d, actions[0]), actions[1..])
  }

  /** What an on_change hook does is up to the application: script(i) is what entry i's does when
      this poll runs it. */
  type Script = nat -> seq<Action>

  /** The device after reg_poll looked at one entry, and whether its hook ran. */
  datatype Visited = Visited(d: Device, ran: bool)

  /** What reg_poll does at entry idx: clear the bit first, then run the hook. */
  function Visit(t: Table, script: Script, d: Device, idx: nat): (r: Visited)
    requires idx < |t| == |d.cells|
    ensures |r.d.cells| == |t|
  {
    if idx !in d.dirty then Visited(d, false)
    else
      var cleared := d.(dirty := d.dirty - {idx});
      if t[idx].onChange then Visited(ActAll(t, cleared, script(idx)), true) else Visited(cleared, false)
  }

  /** The device after a poll and the entries whose hooks ran, in order. */
  datatype Polled = Polled(d: Device, ran: seq<nat>)

  /** reg_poll from entry idx on. */
  function PollFrom(t: Table, script: Script, d: Device, idx: nat): (r: Polled)
    requires idx <= |t| == |d.cells|
    ensures |r.d.cells| == |t|
    decreases |t| - idx
  {
    if idx == |t| then Polled(d, [])
    else
      var visit := Visit(t, script, d, idx);
      var rest := PollFrom(t, script, visit.d, idx + 1);
      Polled(rest.d, (if visit.ran then [idx] else []) + rest.ran)
  }

  /** What the poll amounts to, when these hooks were run and entry idx is next. */
  function PollOn(t: Table, script: Script, d: Device, idx: nat, before: seq<nat>): Polled
    requires idx <= |t| == |d.cells|
  {
    var rest := PollFrom(t, script, d, idx);
    Polled(rest.d, before + rest.ran)
  }

  lemma PollOnStart(t: Table, script: Script, d: Device)
    requires |t| == |d.cells|
    ensures PollOn(t, script, d, 0, []) == PollFrom(t, script, d, 0)
  {
    var ran := PollFrom(t, script, d, 0).ran;
    assert [] + ran == ran;
  }

  lemma PollOnEnd(t: Table, script: Script, d: Device, ran: seq<nat>)
    requires |t| == |d.cells|
    ensures PollOn(t, script, d, |t|, ran) == Polled(d, ran)
  {
    assert ran + [] == ran;
  }

  lemma PollOnStep(t: Table, script: Script, d: Device, idx: nat, before: seq<nat>)
    requires idx < |t| == |d.cells|
    ensures var visit := Visit(t, script, d, idx);
      PollOn(t, script, visit.d, idx + 1, if visit.ran then before + [idx] else before)
      == PollOn(t, script, d, idx, before)
  {
    var visit := Visit(t, script, d, idx);
    var rest := PollFrom(t, script, visit.d, idx + 1).ran;
    Seqs.Assoc(before, if visit.ran then [idx] else [], rest);
    assert before + [] == before;
  }

  // ----- the table handle -----

  class RegTable {
    /** REGTABLE_MAX_ENTRIES, a build-time constant. */
    const maxEntries: nat
    /** entries != NULL */
    var bound: bool
    var entries: Table
    var count: uint16
    /** uint32_t dirty[(MAX + 31) / 32], part of the struct itself. */
    var dirty: seq<uint32>
    /** The variables behind the entries' ptr. */
    var cells: seq<uint32>

    ghost predicate Valid()
      reads this
    {
      && 1 <= maxEntries <= 0xFFFF
      && |dirty| == (maxEntries + 31) / 32
      && (bound ==> |entries| == count <= maxEntries && ValidCells(entries, cells))
    }

    ghost predicate Bound()
      reads this
    {
      Valid() && bound
    }

    /** The bitmap and the variables, read abstractly. */
    ghost function State(): Device
      requires Bound()
      reads this
    {
      Device(cells, Bitmap.Members(dirty, count))
    }

    constructor (maxEntries: nat)
      requires 1 <= maxEntries <= 0xFFFF
      ensures Valid() && !bound && this.maxEntries == maxEntries
    {
      this.maxEntries := maxEntries;
      bound := false;
      entries := [];
      count := 0;
      cells := [];
      dirty := seq((maxEntries + 31) / 32, _ => 0);
    }

    /** reg_table_init over an entry array and the variables it points at: the table is bound, clean,
        exactly when it is not too large. */
    method Init(es: Table, variables: seq<uint32>) returns (r: RegResult)
      requires Valid() && ValidCells(es, variables)
      modifies this
      ensures Valid()
      ensures r == if |es| <= maxEntries then Ok else TableError
      ensures bound <==> r == Ok
      ensures r == Ok ==> entries == es && State() == Device(variables, {})
    {
      var n := 0;
      while n < |es|
        invariant n <= |es| && n <= maxEntries
        invariant Valid()
      {
        n := n + 1;
        if n > maxEntries {
          bound, entries, count := false, [], 0;
          return TableError;
        }
      }
      bound, entries, count, cells := true, es, n, variables;
      dirty := seq(|dirty|, _ => 0);
      Bitmap.EmptyMembers(dirty, count);
      return Ok;
    }

    /** reg_find: the first entry with this name. */
    method FindEntry(name: string) returns (r: Option<nat>)
      requires Bound()
      ensures r == Find(entries, name)
    {
      var i := 0;
      while i < |entries|
        invariant i <= |entries|
        invariant FindFrom(entries, name, i) == Find(entries, name)
      {
        if entries[i].name == name { return Some(i); }
        i := i + 1;
      }
      return None;
    }

    /** reg_mark_dirty: a pointer outside the bound table is ignored. */
    method MarkDirty(i: int)
      requires Valid()
      modifies this`dirty
      ensures Valid()
      ensures bound ==> State() == Act(entries, old(State()), Mark(i))
      ensures !bound ==> dirty == old(dirty)
    {
      if !bound || i < 0 || i >= count { return; }
      Bitmap.SetMembers(dirty, i, count);
      dirty := dirty[i / 32 := Bitwise.WordWith(dirty[i / 32], i % 32)];
    }

    /** reg_set_raw. */
    method SetRaw(h: Hooks, i: nat, raw: uint32) returns (r: RegResult)
      requires Bound() && i < |entries|
      modifies this`cells, this`dirty
      ensures Bound()
      ensures Written(State(), r) == Registers.SetRaw(entries, h, old(State()), i, raw)
    {
      SetRawEffect(entries, h, State(), i, raw);
      var e := entries[i];
      var verdict := Verdict(e, raw);
      if verdict != Ok { return verdict; }
      var v := Normal(e.rtype, raw);
      if e.onWrite && !h.approve(i, v, cells) { return Rejected; }
      var before := Load(e.rtype, cells[i]);
      cells := cells[i := Store(e.rtype, v)];
      if before != v { MarkDirty(i); }
      return Ok;
    }

    /** reg_get_raw. */
    method GetRaw(h: Hooks, i: nat) returns (raw: uint32)
      requires Bound() && i < |entries|
      modifies this`cells
      ensures Bound()
      ensures Fetched(State(), raw) == Registers.GetRaw(entries, h, old(State()), i)
    {
      if entries[i].onRead { cells := cells[i := Store(entries[i].rtype, h.sample(i, cells))]; }
      return Load(entries[i].rtype, cells[i]);
    }

    method PerformOne(a: Action)
      requires Bound()
      modifies this`cells, this`dirty
      ensures Bound() && State() == Act(entries, old(State()), a)
    {
      match a
      case Write(h, i, raw) => if i < |entries| { var _ := SetRaw(h, i, raw); }
      case Read(h, i) => if i < |entries| { var _ := GetRaw(h, i); }
      case Poke(i, cell) => if i < |entries| { cells := cells[i := Store(entries[i].rtype, cell)]; }
      case Mark(i) => MarkDirty(i);
    }

    /** Application code: the body of an on_change hook, or the main loop between polls. */
    method Perform(actions: seq<Action>)
      requires Bound()
      modifies this`cells, this`dirty
      ensures Bound() && State() == ActAll(entries, old(State()), actions)
    {
      var k := 0;
      while k < |actions|
        decreases |actions| - k
        invariant k <= |actions| && Bound()
        invariant ActAll(entries, State(), actions[k..]) == ActAll(entries, old(State()), actions)
      {
        assert actions[k..][1..] == actions[k + 1..];
        PerformOne(actions[k]);
        k := k + 1;
      }
    }

    /** The test-and-clear at the head of reg_poll's loop. */
    method TakeBit(idx: nat) returns (pending: bool)
      requires Bound() && idx < count
      modifies this`dirty
      ensures Bound()
      ensures pending <==> idx in old(State()).dirty
      ensures State() == if pending then old(State()).(dirty := old(State()).dirty - {idx}) else old(State())
    {
      Bitwise.AndMask(dirty[idx / 32], idx % 32);
      pending := Bitwise.And(dirty[idx / 32], Bitwise.Shl1(idx % 32)) != 0;
      if pending {
        Bitmap.ClearMembers(dirty, idx, count);
        dirty := dirty[idx / 32 := Bitwise.WordWithout(dirty[idx / 32], idx % 32)];
      }
    }

    /** The body of reg_poll's loop. */
    method PollEntry(script: Script, idx: nat) returns (ran: bool)
      requires Bound() && idx < count
      modifies this`cells, this`dirty
      ensures Bound()
      ensures Visited(State(), ran) == Visit(entries, script, old(State()), idx)
    {
      var pending := TakeBit(idx);
      ran := pending && entries[idx].onChange;
      if ran { Perform(script(idx)); }
    }

    /** reg_poll: clear each set bit in table order, then run that entry's hook. */
    method Poll(script: Script) returns (fired: nat, ghost ran: seq<nat>)
      requires Valid()
      modifies this`cells, this`dirty
      ensures Valid()
      ensures !bound ==> fired == 0 && cells == old(cells) && dirty == old(dirty)
      ensures bound ==> Polled(State(), ran) == PollFrom(entries, script, old(State()), 0) && fired == |ran|
    {
      fired, ran := 0, [];
      if bound { fired, ran := PollBound(script); }
    }

    method PollBound(script: Script) returns (fired: nat, ghost ran: seq<nat>)
      requires Bound()
      modifies this`cells, this`dirty
      ensures Bound() && Polled(State(), ran) == PollFrom(entries, script, old(State()), 0) && fired == |ran|
    {
      fired, ran := 0, [];
      var idx := 0;
      ghost var t, whole := entries, PollOn(entries, script, State(), 0, []);
      PollOnStart(t, script, State());
      while idx < count
        invariant idx <= count && Bound() && entries == t && fired == |ran|
        invariant PollOn(t, script, State(), idx, ran) == whole
      {
        var hook;
        hook, ran := PollNext(script, idx, ran);
        if hook { fired := fired + 1; }
        idx := idx + 1;
      }
      PollOnEnd(t, script, State(), ran);
    }

    /** One turn of the loop, with the hooks run so far. */
    method PollNext(script: Script, idx: nat, ghost before: seq<nat>) returns (hook: bool, ghost ran: seq<nat>)
      requires Bound() && idx < count
      modifies this`cells, this`dirty
      ensures Bound() && ran == if hook then before + [idx] else before
      ensures PollOn(entries, script, State(), idx + 1, ran) == PollOn(entries, script, old(State()), idx, before)
    {
      PollOnStep(entries, script, State(), idx, before);
      hook := PollEntry(script, idx);
      ran := if hook then before + [idx] else before;
    }
  }

  // ----- one poll -----

  /** Hooks run at most once each, in table order from entry `from` on. */
  ghost predicate InOrder(t: Table, ran: seq<nat>, from: nat) {
    && (forall k :: 0 <= k < |ran| ==> from <= ran[k] < |t| && t[ran[k]].onChange)
    && (forall j, k :: 0 <= j < k < |ran| ==> ran[j] < ran[k])
  }

  lemma InOrderStep(t: Table, ran: seq<nat>, idx: nat)
    requires idx < |t| && InOrder(t, ran, idx + 1)
    ensures InOrder(t, ran, idx)
    ensures t[idx].onChange ==> InOrder(t, [idx] + ran, idx)
  {
  }

  lemma {:induction false} PollOrder(t: Table, script: Script, d: Device, idx: nat)
    requires idx <= |t| == |d.cells|
    ensures InOrder(t, PollFrom(t, script, d, idx).ran, idx)
    decreases |t| - idx
  {
    if idx < |t| {
      var Visited(next, ran) := Visit(t, script, d, idx);
      var rest := PollFrom(t, script, next, idx + 1).ran;
      PollOrder(t, script, next, idx + 1);
      InOrderStep(t, rest, idx);
      assert [] + rest == rest;
    }
  }

  /** Every hook whose entry is dirty when the poll begins runs. */
  lemma {:induction false} PollCovers(t: Table, script: Script, d: Device, idx: nat, i: nat)
    requires idx <= i < |t| == |d.cells|
    requires i in d.dirty && t[i].onChange
    ensures i in PollFrom(t, script, d, idx).ran
    decreases |t| - idx
  {
    var Visited(next, ran) := Visit(t, script, d, idx);
    if i == idx {
      assert ([idx] + PollFrom(t, script, next, idx + 1).ran)[0] == i;
    } else {
      if ran { ActAllKeepsDirty(t, d.(dirty := d.dirty - {idx}), script(idx)); }
      PollCovers(t, script, next, idx + 1, i);
    }
  }

  /** Nothing but a poll clears a dirty bit. */
  lemma {:induction false} ActAllKeepsDirty(t: Table, d: Device, actions: seq<Action>)
    requires |d.cells| == |t|
    ensures d.dirty <= ActAll(t, d, actions).dirty
    decreases |actions|
  {
    if actions != [] { ActAllKeepsDirty(t, Act(t, d, actions[0]), actions[1..]); }
  }

  /** When the hooks leave the table alone a poll changes no variable, runs exactly the hooks of the
      dirty entries it walks over, and leaves none of them dirty. */
  lemma {:induction false} QuietPoll(t: Table, script: Script, d: Device, idx: nat)
    requires idx <= |t| == |d.cells|
    requires forall i :: script(i) == []
    ensures var Polled(d', ran) := PollFrom(t, script, d, idx);
      && d'.cells == d.cells
      && d'.dirty == (set i | i in d.dirty && !(idx <= i < |t|))
      && (forall i :: i in ran <==> idx <= i < |t| && i in d.dirty && t[i].onChange)
    decreases |t| - idx
  {
    if idx < |t| { QuietPoll(t, script, Visit(t, script, d, idx).d, idx + 1); }
  }

  // ----- runs, with their history -----

  /** A device with what an observer of its on_change hooks knows: which variables were written
      directly and not announced since, and each hook run with the value it found. */
  datatype History = History(d: Device, stale: set<nat>, runs: seq<(nat, uint32)>)

  datatype Step = Do(a: Action) | Poll(script: Script)

  function Record(t: Table, s: History, a: Action): (r: History)
    requires |s.d.cells| == |t|
    ensures |r.d.cells| == |t|
  {
    var d' := Act(t, s.d, a);
    History(d', s.stale + (if a.Poke? then {a.i} else {}) - d'.dirty, s.runs)
  }

  function RecordAll(t: Table, s: History, actions: seq<Action>): (r: History)
    requires |s.d.cells| == |t|
    ensures |r.d.cells| == |t|
    decreases |actions|
  {
    if actions == [] then s else RecordAll(t, Record(t, s, actions[0]), actions[1..])
  }

  function RecordVisit(t: Table, script: Script, s: History, idx: nat): (r: History)
    requires idx < |t| == |s.d.cells|
    ensures |r.d.cells| == |t|
  {
    if idx !in s.d.dirty then s
    else
      var cleared := s.(d := s.d.(dirty := s.d.dirty - {idx}), stale := s.stale - {idx});
      if t[idx].onChange then
        RecordAll(t, cleared.(runs := s.runs + [(idx, Load(t[idx].rtype, s.d.cells[idx]))]), script(idx))
      else cleared
  }

  function RecordPoll(t: Table, script: Script, s: History, idx: nat): (r: History)
    requires idx <= |t| == |s.d.cells|
    ensures |r.d.cells| == |t|
    decreases |t| - idx
  {
    if idx == |t| then s else RecordPoll(t, script, RecordVisit(t, script, s, idx), idx + 1)
  }

  function Run(t: Table, s: History, steps: seq<Step>): (r: History)
    requires |s.d.cells| == |t|
    ensures |r.d.cells| == |t|
    decreases |steps|
  {
    if steps == [] then s
    else
      match steps[0]
      case Do(a) => Run(t, Record(t, s, a), steps[1..])
      case Poll(script) => Run(t, RecordPoll(t, script, s, 0), steps[1..])
  }

  lemma {:induction false} RecordAllErases(t: Table, s: History, actions: seq<Action>)
    requires |s.d.cells| == |t|
    ensures RecordAll(t, s, actions).d == ActAll(t, s.d, actions)
    ensures RecordAll(t, s, actions).runs == s.runs
    decreases |actions|
  {
    if actions != [] { RecordAllErases(t, Record(t, s, actions[0]), actions[1..]); }
  }

  function Indices(runs: seq<(nat, uint32)>): (r: seq<nat>)
    ensures |r| == |runs| && forall k :: 0 <= k < |r| ==> r[k] == runs[k].0
  {
    seq(|runs|, k requires 0 <= k < |runs| => runs[k].0)
  }

  /** The history is bookkeeping only: device and hook order are those of the poll itself. */
  lemma {:induction false} RecordPollErases(t: Table, script: Script, s: History, idx: nat)
    requires idx <= |t| == |s.d.cells|
    ensures RecordPoll(t, script, s, idx).d == PollFrom(t, script, s.d, idx).d
    ensures Indices(RecordPoll(t, script, s, idx).runs) == Indices(s.runs) + PollFrom(t, script, s.d, idx).ran
    decreases |t| - idx
  {
    if idx < |t| {
      if idx in s.d.dirty && t[idx].onChange {
        var seen := History(s.d.(dirty := s.d.dirty - {idx}), s.stale - {idx},
                            s.runs + [(idx, Load(t[idx].rtype, s.d.cells[idx]))]);
        RecordAllErases(t, seen, script(idx));
        assert Indices(seen.runs) == Indices(s.runs) + [idx];
      }
      RecordPollErases(t, script, RecordVisit(t, script, s, idx), idx + 1);
    }
  }

  /** The value entry i's hook last found, or what the variable held at the start. */
  function LastSeen(runs: seq<(nat, uint32)>, i: nat, initial: uint32): uint32 {
    if runs == [] then initial
    else if runs[|runs| - 1].0 == i then runs[|runs| - 1].1
    else LastSeen(runs[..|runs| - 1], i, initial)
  }

  /** Every entry with an on_change hook, no on_read, a clear dirty bit and no unannounced direct write
      holds the value its hook last saw. */
  ghost predicate NothingLost(t: Table, initial: seq<uint32>, s: History) {
    && |initial| == |t| == |s.d.cells|
    && forall i :: 0 <= i < |t| && t[i].onChange && !t[i].onRead && i !in s.d.dirty && i !in s.stale ==>
         Load(t[i].rtype, s.d.cells[i]) == LastSeen(s.runs, i, Load(t[i].rtype, initial[i]))
  }

  lemma RecordKeeps(t: Table, initial: seq<uint32>, s: History, a: Action)
    requires NothingLost(t, initial, s) && ValidDevice(t, s.d)
    ensures NothingLost(t, initial, Record(t, s, a)) && ValidDevice(t, Record(t, s, a).d)
  {
    if a.Write? && a.i < |t| { SetRawEffect(t, a.h, s.d, a.i, a.raw); }
  }

  lemma {:induction false} RecordAllKeeps(t: Table, initial: seq<uint32>, s: History, actions: seq<Action>)
    requires NothingLost(t, initial, s) && ValidDevice(t, s.d)
    ensures NothingLost(t, initial, RecordAll(t, s, actions)) && ValidDevice(t, RecordAll(t, s, actions).d)
    decreases |actions|
  {
    if actions != [] {
      RecordKeeps(t, initial, s, actions[0]);
      RecordAllKeeps(t, initial, Record(t, s, actions[0]), actions[1..]);
    }
  }

  lemma {:induction false} RecordPollKeeps(t: Table, script: Script, initial: seq<uint32>, s: History, idx: nat)
    requires idx <= |t| && NothingLost(t, initial, s) && ValidDevice(t, s.d)
    ensures var s' := RecordPoll(t, script, s, idx); NothingLost(t, initial, s') && ValidDevice(t, s'.d)
    decreases |t| - idx
  {
    if idx < |t| {
      if idx in s.d.dirty && t[idx].onChange {
        var seen := History(s.d.(dirty := s.d.dirty - {idx}), s.stale - {idx},
                            s.runs + [(idx, Load(t[idx].rtype, s.d.cells[idx]))]);
        assert seen.runs[..|seen.runs| - 1] == s.runs;
        RecordAllKeeps(t, initial, seen, script(idx));
      }
      RecordPollKeeps(t, script, initial, RecordVisit(t, script, s, idx), idx + 1);
    }
  }

  lemma {:induction false} RunKeeps(t: Table, initial: seq<uint32>, s: History, steps: seq<Step>)
    requires NothingLost(t, initial, s) && ValidDevice(t, s.d)
    ensures NothingLost(t, initial, Run(t, s, steps))
    decreases |steps|
  {
    if steps != [] {
      match steps[0]
      case Do(a) =>
        RecordKeeps(t, initial, s, a);
        RunKeeps(t, initial, Record(t, s, a), steps[1..]);
      case Poll(script) =>
        RecordPollKeeps(t, script, initial, s, 0);
        RunKeeps(t, initial, RecordPoll(t, script, s, 0), steps[1..]);
    }
  }

  /** No lost change: over any run from a freshly bound table, however the on_change hooks write, read
      and mark entries themselves. */
  lemma NoLostChange(t: Table, initial: seq<uint32>, steps: seq<Step>)
    requires ValidCells(t, initial)
    ensures NothingLost(t, initial, Run(t, History(Device(initial, {}), {}, []), steps))
  {
    RunKeeps(t, initial, History(Device(initial, {}), {}, []), steps);
  }
}
