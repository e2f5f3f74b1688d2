/** verify(): a client's schema against the device's own listing, and exactly when it finds nothing to
    report. */
module Contract {
  import opened Words
  import opened Registers
  import opened Client
  import opened Fingerprint
  import opened Discover
  import Float32
  import M = MqttMeta

  // ----- what counts as a difference -----

  datatype Key = Type | Perm | Min | Max | Modbus | Desc

  const KEYS := {Type, Perm, Min, Max, Modbus, Desc}

  /** Messages of verify(), less their wording. */
  datatype Difference = Twice(name: string) | Missing(name: string) | Extra(name: string)
                      | Differs(name: string, key: Key)

  /** The binary32 pattern of a FLOAT bound. */
  function Pattern(f32: Float32.Rounding, a: Bound): uint32 {
    match a
    case PyInt(v) => f32(v as real)
    case PyFloat(bits) => bits
  }

  /** Two FLOAT bounds, compared as the binary32 numbers they become; what becomes none is a difference. */
  predicate SameNumber(f32: Float32.Rounding, a: Bound, b: Json) {
    && IsNumber(b) && Float32.IsFinite(Pattern(f32, a)) && Float32.IsFinite(f32(Amount(b)))
    && Float32.Value(Pattern(f32, a)) == Float32.Value(f32(Amount(b)))
  }

  predicate SameBound(f32: Float32.Rounding, ty: RegType, a: Option<Bound>, b: Json) {
    if a.None? || b.Null? then a.None? && b.Null?
    else if ty == Float then SameNumber(f32, a.value, b)
    else a.value.PyInt? && b == Int(a.value.v)
  }

  /** What Python takes for false, and `or` replaces. */
  predicate Falsy(v: Json) {
    match v
    case Null => true
    case Bool(b) => !b
    case Int(n) => n == 0
    case Real(x) => x == 0.0
    case Endless => false
    case Str(s) => s == ""
    case Array(items) => items == []
    case Object(members) => members == map[]
  }

  /** Equality with an int: a float of that value, and True for 1, are equal to it. */
  predicate SameWord(a: nat, v: Json) {
    if Falsy(v) then a == 0 else (IsNumber(v) && Amount(v) == a as real) || (v.Bool? && a == 1)
  }

  predicate SameText(a: string, v: Json) {
    if Falsy(v) then a == "" else v == Str(a)
  }

  /** One key of one register: the client's entry against the device's. */
  predicate Same(f32: Float32.Rounding, want: PyEntry, got: Json, key: Key)
    requires EntryTyped(got)
  {
    match key
    case Type => got.members["type"] == Str(M.TypeName(want.rtype))
    case Perm => got.members["perm"] == Str(if want.perm == RO then "RO" else "RW")
    case Min => SameBound(f32, want.rtype, want.min, Member(got.members, "min", Null))
    case Max => SameBound(f32, want.rtype, want.max, Member(got.members, "max", Null))
    case Modbus => SameWord(want.modbus, Member(got.members, "modbus", Int(0)))
    case Desc => SameText(want.desc, Member(got.members, "desc", Null))
  }

  function NameOf(e: Json): string
    requires EntryTyped(e)
  {
    e.members["name"].s
  }

  /** The device's registers by name; a later one of a name replaces an earlier one. */
  function ByName(items: seq<Json>): (m: map<string, Json>)
    requires AllTyped(items)
    ensures forall name :: name in m ==> EntryTyped(m[name])
  {
    if items == [] then map[]
    else ByName(items[..|items| - 1])[NameOf(items[|items| - 1]) := items[|items| - 1]]
  }

  /** The names listed, in order. */
  function Names(items: seq<Json>): (names: seq<string>)
    requires AllTyped(items)
    ensures |names| == |items|
  {
    seq(|items|, k requires 0 <= k < |items| => NameOf(items[k]))
  }

  ghost predicate Twofold(names: seq<string>, name: string) {
    exists i, j :: 0 <= i < j < |names| && names[i] == name == names[j]
  }

  ghost predicate IsDifference(f32: Float32.Rounding, schema: map<string, PyEntry>, items: seq<Json>, d: Difference)
    requires AllTyped(items)
  {
    var device := ByName(items);
    match d
    case Twice(name) => Twofold(Names(items), name)
    case Missing(name) => name in schema && name !in device
    case Extra(name) => name !in schema && name in device
    case Differs(name, key) => name in schema && name in device && !Same(f32, schema[name], device[name], key)
  }

  // ----- the comparison -----

  lemma {:induction false} ByNameKeys(items: seq<Json>)
    requires AllTyped(items)
    ensures forall name :: name in ByName(items) <==> name in Names(items)
  {
    if items != [] {
      var front := items[..|items| - 1];
      ByNameKeys(front);
      assert Names(items) == Names(front) + [NameOf(items[|items| - 1])];
    }
  }

  lemma TwofoldNext(names: seq<string>, next: string, name: string)
    ensures Twofold(names + [next], name) <==> Twofold(names, name) || (name == next && name in names)
  {
    var now := names + [next];
    if Twofold(names, name) {
      var j, k :| 0 <= j < k < |names| && names[j] == name == names[k];
      assert now[j] == names[j] && now[k] == names[k];
    } else if name == next && name in names {
      var j :| 0 <= j < |names| && names[j] == name;
      assert now[j] == name == now[|names|];
    }
  }

  lemma NamesNext(items: seq<Json>, i: nat)
    requires i < |items| && AllTyped(items)
    ensures Names(items[..i + 1]) == Names(items[..i]) + [NameOf(items[i])]
    ensures ByName(items[..i + 1]) == ByName(items[..i])[NameOf(items[i]) := items[i]]
  {
    assert items[..i + 1][..i] == items[..i];
  }

  /** One turn of the loop: whether this name was there before. */
  method CollectNext(ghost before: seq<Json>, name: string, device: map<string, Json>, twice: set<string>)
    returns (now: set<string>)
    requires AllTyped(before) && device == ByName(before)
    requires forall n :: n in twice <==> Twofold(Names(before), n)
    ensures forall n :: n in now <==> Twofold(Names(before) + [name], n)
  {
    ByNameKeys(before);
    forall n ensures Twofold(Names(before) + [name], n) <==> n in twice || (n == name && n in device) {
      TwofoldNext(Names(before), name, n);
    }
    now := if name in device then twice + {name} else twice;
  }

  /** The first loop: the device's registers by name, and the names it lists twice. */
  method Collect(items: seq<Json>) returns (device: map<string, Json>, twice: set<string>)
    requires AllTyped(items)
    ensures device == ByName(items) && forall name :: name in twice <==> Twofold(Names(items), name)
  {
    device, twice := map[], {};
    for i := 0 to |items|
      invariant device == ByName(items[..i]) && forall name :: name in twice <==> Twofold(Names(items[..i]), name)
    {
      NamesNext(items, i);
      twice := CollectNext(items[..i], NameOf(items[i]), device, twice);
      device := device[NameOf(items[i]) := items[i]];
    }
    assert items[..|items|] == items;
  }

  /** What the other two loops add, the device's registers being known by name. */
  function Found(f32: Float32.Rounding, schema: map<string, PyEntry>, device: map<string, Json>,
                 twice: set<string>): set<Difference>
    requires forall name :: name in device ==> EntryTyped(device[name])
  {
    (set name | name in twice :: Twice(name))
    + (set name | name in schema && name !in device :: Missing(name))
    + (set name | name in device && name !in schema :: Extra(name))
    + Changed(f32, schema, device)
  }

  function Changed(f32: Float32.Rounding, schema: map<string, PyEntry>, device: map<string, Json>): set<Difference>
    requires forall name :: name in device ==> EntryTyped(device[name])
  {
    set name, key | name in schema && name in device && key in KEYS && !Same(f32, schema[name], device[name], key)
      :: Differs(name, key)
  }

  lemma KeyKnown(key: Key)
    ensures key in KEYS
  {
    match key
    case Type => case Perm => case Min => case Max => case Modbus => case Desc =>
  }

  lemma FoundIff(f32: Float32.Rounding, schema: map<string, PyEntry>, device: map<string, Json>, twice: set<string>,
                 d: Difference)
    requires forall name :: name in device ==> EntryTyped(device[name])
    ensures d in Found(f32, schema, device, twice) <==>
            match d
            case Twice(name) => name in twice
            case Missing(name) => name in schema && name !in device
            case Extra(name) => name !in schema && name in device
            case Differs(name, key) => name in schema && name in device && !Same(f32, schema[name], device[name], key)
  {
    if d.Differs? { KeyKnown(d.key); }
  }

  /** verify() on a listing that passed the checks of _list. */
  method Compare(f32: Float32.Rounding, schema: map<string, PyEntry>, items: seq<Json>) returns (diff: set<Difference>)
    requires AllTyped(items)
    ensures forall d :: d in diff <==> IsDifference(f32, schema, items, d)
  {
    var device, twice := Collect(items);
    diff := Found(f32, schema, device, twice);
    forall d ensures d in diff <==> IsDifference(f32, schema, items, d) {
      FoundIff(f32, schema, device, twice, d);
    }
  }

  // ----- when there is none -----

  ghost predicate NoDifference(f32: Float32.Rounding, schema: map<string, PyEntry>, items: seq<Json>)
    requires AllTyped(items)
  {
    forall d :: !IsDifference(f32, schema, items, d)
  }

  ghost predicate AllSame(f32: Float32.Rounding, want: PyEntry, got: Json)
    requires EntryTyped(got)
  {
    forall key :: Same(f32, want, got, key)
  }

  predicate Apart(names: seq<string>) {
    forall i, j :: 0 <= i < j < |names| ==> names[i] != names[j]
  }

  ghost predicate SameNames(schema: map<string, PyEntry>, names: seq<string>) {
    forall name :: name in schema <==> name in names
  }

  ghost predicate EachSame(f32: Float32.Rounding, schema: map<string, PyEntry>, items: seq<Json>)
    requires AllTyped(items)
  {
    forall k :: 0 <= k < |items| && NameOf(items[k]) in schema ==> AllSame(f32, schema[NameOf(items[k])], items[k])
  }

  lemma {:induction false} ByNameApart(items: seq<Json>, k: nat)
    requires AllTyped(items) && Apart(Names(items)) && k < |items|
    ensures NameOf(items[k]) in ByName(items) && ByName(items)[NameOf(items[k])] == items[k]
  {
    var last := |items| - 1;
    NamesNext(items, last);
    assert items[..last + 1] == items;
    if k < last {
      assert forall j :: 0 <= j < last ==> Names(items)[j] == Names(items[..last])[j];
      assert Names(items)[k] != Names(items)[last];
      ByNameApart(items[..last], k);
    }
  }

  /** No difference: every register once, under the schema's names, each the same key by key. The order is
      not compared. */
  lemma NoDifferenceIff(f32: Float32.Rounding, schema: map<string, PyEntry>, items: seq<Json>)
    requires AllTyped(items)
    ensures NoDifference(f32, schema, items) <==>
            Apart(Names(items)) && SameNames(schema, Names(items)) && EachSame(f32, schema, items)
  {
    if NoDifference(f32, schema, items) {
      NamesIfNone(f32, schema, items);
      EachIfNone(f32, schema, items);
    } else if Apart(Names(items)) && SameNames(schema, Names(items)) && EachSame(f32, schema, items) {
      var d :| IsDifference(f32, schema, items, d);
      NoneIfSame(f32, schema, items, d);
      assert false;
    }
  }

  lemma NoneIfSame(f32: Float32.Rounding, schema: map<string, PyEntry>, items: seq<Json>, d: Difference)
    requires AllTyped(items)
    requires Apart(Names(items)) && SameNames(schema, Names(items)) && EachSame(f32, schema, items)
    ensures !IsDifference(f32, schema, items, d)
  {
    ByNameKeys(items);
    if d.Differs? && d.name in Names(items) {
      var k :| 0 <= k < |items| && Names(items)[k] == d.name;
      ByNameApart(items, k);
    }
  }

  lemma NamesIfNone(f32: Float32.Rounding, schema: map<string, PyEntry>, items: seq<Json>)
    requires AllTyped(items) && NoDifference(f32, schema, items)
    ensures Apart(Names(items)) && SameNames(schema, Names(items))
  {
    ByNameKeys(items);
    forall i, j | 0 <= i < j < |items| ensures Names(items)[i] != Names(items)[j] {
      assert !IsDifference(f32, schema, items, Twice(Names(items)[i]));
    }
    forall name ensures name in schema <==> name in Names(items) {
      assert !IsDifference(f32, schema, items, Extra(name)) && !IsDifference(f32, schema, items, Missing(name));
    }
  }

  lemma EachIfNone(f32: Float32.Rounding, schema: map<string, PyEntry>, items: seq<Json>)
    requires AllTyped(items) && NoDifference(f32, schema, items) && Apart(Names(items))
    ensures EachSame(f32, schema, items)
  {
    forall k | 0 <= k < |items| && NameOf(items[k]) in schema
      ensures AllSame(f32, schema[NameOf(items[k])], items[k])
    {
      ByNameApart(items, k);
      forall key ensures Same(f32, schema[NameOf(items[k])], items[k], key) {
        assert !IsDifference(f32, schema, items, Differs(NameOf(items[k]), key));
      }
    }
  }

  // ----- the rounding of values in _list is none of verify()'s business -----

  lemma SameRounded(f32: Float32.Rounding, want: PyEntry, e: Json)
    requires EntryShaped(f32, e)
    ensures NameOf(Rounded(f32, e)) == NameOf(e) && (AllSame(f32, want, Rounded(f32, e)) <==> AllSame(f32, want, e))
  {
    forall key ensures Same(f32, want, Rounded(f32, e), key) == Same(f32, want, e, key) {
    }
  }

  lemma NoDifferenceRounded(f32: Float32.Rounding, schema: map<string, PyEntry>, items: seq<Json>)
    requires AllShaped(f32, items) && AllTyped(RoundedAll(f32, items))
    ensures NoDifference(f32, schema, RoundedAll(f32, items)) <==> NoDifference(f32, schema, items)
  {
    var rounded := RoundedAll(f32, items);
    NoDifferenceIff(f32, schema, items);
    NoDifferenceIff(f32, schema, rounded);
    EachRounded(f32, schema, items);
  }

  lemma EachRounded(f32: Float32.Rounding, schema: map<string, PyEntry>, items: seq<Json>)
    requires AllShaped(f32, items) && AllTyped(RoundedAll(f32, items))
    ensures Names(RoundedAll(f32, items)) == Names(items)
    ensures EachSame(f32, schema, RoundedAll(f32, items)) <==> EachSame(f32, schema, items)
  {
    var rounded := RoundedAll(f32, items);
    forall k | 0 <= k < |items|
      ensures NameOf(rounded[k]) == NameOf(items[k])
      ensures NameOf(items[k]) in schema ==>
                var want := schema[NameOf(items[k])];
                AllSame(f32, want, rounded[k]) <==> AllSame(f32, want, items[k])
    {
      SameRounded(f32, if NameOf(items[k]) in schema then schema[NameOf(items[k])] else NOTHING, items[k]);
    }
    assert Names(rounded) == Names(items);
  }

  const NOTHING := PyEntry(U8, RO, None, None, 0, "")

  /** verify() of a client: None when the listing is not one and the connection is closed. */
  method Verify(client: RegtableClient, answers: nat -> Json, f32: Float32.Rounding, env: Env,
                schema: map<string, PyEntry>) returns (diff: Option<set<Difference>>)
    requires Paired(client.State()) && !client.dead
    modifies client`dead, client.t
    ensures Paired(client.State()) && (diff.None? <==> client.dead)
    ensures diff.Some? ==>
              var k := |old(client.t.wire.written)|;
              && client.t.wire.written == old(client.t.wire.written) + [Command(Snapshot)]
              && answers(k).Array? && AllShaped(f32, answers(k).items)
              && (diff == Some({}) <==> NoDifference(f32, schema, answers(k).items))
  {
    CmdPairs(client.State(), Command(Snapshot), env);
    PerformPairs(answers, f32, map[], client.State(), Snapshot, env);
    ghost var k := |client.t.wire.written|;
    var r := client.Do(answers, f32, map[], Snapshot, env);
    if !r.Listed? { return None; }
    RoundingIgnored(f32, answers(k).items, 0, []);
    NoDifferenceRounded(f32, schema, answers(k).items);
    var found := Compare(f32, schema, r.items);
    if found != {} {
      var d :| d in found;
      assert IsDifference(f32, schema, r.items, d);
    }
    return Some(found);
  }

  // ----- against a device -----

  /** A limit the listing does not show: none, or not a finite FLOAT. */
  predicate Shows(e: Entry, limit: uint32) {
    HasRange(e) && (e.rtype == Float ==> Float32.IsFinite(limit))
  }

  /** The client's bound is the device's limit: for FLOAT the same number. */
  predicate BoundIs(f32: Float32.Rounding, a: Option<Bound>, e: Entry, limit: uint32) {
    if !Shows(e, limit) then a.None?
    else if e.rtype == Float then
      && a.Some? && Float32.IsFinite(Pattern(f32, a.value))
      && Float32.Value(Pattern(f32, a.value)) == Float32.Value(limit)
    else a == Some(ReadBack(e.rtype, limit))
  }

  /** The client's entry is the device's: type, permission, limits, address, description. */
  predicate EntryIs(f32: Float32.Rounding, want: PyEntry, e: Entry) {
    && want.rtype == e.rtype && want.perm == e.perm && want.modbus == e.modbusAddr && want.desc == Description(e)
    && BoundIs(f32, want.min, e, e.min) && BoundIs(f32, want.max, e, e.max)
  }

  lemma BoundSameIff(f32: Float32.Rounding, shown: Shown, a: Option<Bound>, e: Entry, limit: uint32)
    requires RoundTrips(f32, shown)
    ensures SameBound(f32, e.rtype, a, if HasRange(e) then NumberJson(shown, e.rtype, limit) else Null)
       <==> BoundIs(f32, a, e, limit)
  {
    if e.rtype == Float && Float32.IsFinite(limit) { ZeroValue(limit); }
  }

  lemma ZeroValue(limit: uint32)
    ensures Float32.Value(ThroughJson(Float, limit)) == Float32.Value(limit)
    ensures Float32.IsFinite(limit) ==> Float32.IsFinite(ThroughJson(Float, limit))
  {
  }

  lemma TypeNamesDiffer(a: RegType, b: RegType)
    ensures M.TypeName(a) == M.TypeName(b) <==> a == b
  {
    TypeNames(a);
    TypeNames(b);
  }

  lemma AllSameIff(f32: Float32.Rounding, shown: Shown, want: PyEntry, e: Entry, raw: uint32)
    requires RoundTrips(f32, shown)
    ensures EntryTyped(EntryJson(shown, e, raw)) && NameOf(EntryJson(shown, e, raw)) == e.name
    ensures AllSame(f32, want, EntryJson(shown, e, raw)) <==> EntryIs(f32, want, e)
  {
    var got := EntryJson(shown, e, raw);
    EntryJsonTyped(shown, e, raw);
    Looked(shown, e, raw);
    KeyByKey(f32, want, got);
    KindSameIff(f32, shown, want, e, raw);
    LimitsSameIff(f32, shown, want, e, raw);
    RestSameIff(f32, shown, want, e, raw);
  }

  lemma KindSameIff(f32: Float32.Rounding, shown: Shown, want: PyEntry, e: Entry, raw: uint32)
    ensures EntryTyped(EntryJson(shown, e, raw))
    ensures Same(f32, want, EntryJson(shown, e, raw), Type) <==> want.rtype == e.rtype
    ensures Same(f32, want, EntryJson(shown, e, raw), Perm) <==> want.perm == e.perm
  {
    EntryJsonTyped(shown, e, raw);
    Looked(shown, e, raw);
    TypeNamesDiffer(want.rtype, e.rtype);
    assert "RO"[1] != "RW"[1];
  }

  lemma LimitsSameIff(f32: Float32.Rounding, shown: Shown, want: PyEntry, e: Entry, raw: uint32)
    requires RoundTrips(f32, shown)
    ensures EntryTyped(EntryJson(shown, e, raw))
    ensures want.rtype == e.rtype ==>
              (Same(f32, want, EntryJson(shown, e, raw), Min) <==> BoundIs(f32, want.min, e, e.min))
    ensures want.rtype == e.rtype ==>
              (Same(f32, want, EntryJson(shown, e, raw), Max) <==> BoundIs(f32, want.max, e, e.max))
  {
    EntryJsonTyped(shown, e, raw);
    LookedOptional(shown, e, raw);
    BoundSameIff(f32, shown, want.min, e, e.min);
    BoundSameIff(f32, shown, want.max, e, e.max);
  }

  lemma RestSameIff(f32: Float32.Rounding, shown: Shown, want: PyEntry, e: Entry, raw: uint32)
    ensures EntryTyped(EntryJson(shown, e, raw))
    ensures Same(f32, want, EntryJson(shown, e, raw), Modbus) <==> want.modbus == e.modbusAddr
    ensures Same(f32, want, EntryJson(shown, e, raw), Desc) <==> want.desc == Description(e)
  {
    EntryJsonTyped(shown, e, raw);
    LookedOptional(shown, e, raw);
    LookedDesc(shown, e, raw);
  }

  lemma LookedDesc(shown: Shown, e: Entry, raw: uint32)
    ensures Member(EntryJson(shown, e, raw).members, "desc", Null)
         == if e.description.Some? then Str(e.description.value) else Null
  {
  }

  lemma KeyByKey(f32: Float32.Rounding, want: PyEntry, got: Json)
    requires EntryTyped(got)
    ensures AllSame(f32, want, got) <==>
            && Same(f32, want, got, Type) && Same(f32, want, got, Perm) && Same(f32, want, got, Min)
            && Same(f32, want, got, Max) && Same(f32, want, got, Modbus) && Same(f32, want, got, Desc)
  {
  }

  function TableNames(t: Table): (names: seq<string>)
    ensures |names| == |t|
  {
    seq(|t|, k requires 0 <= k < |t| => t[k].name)
  }

  /** The schema holds exactly the registers of the table. */
  ghost predicate HoldsTable(f32: Float32.Rounding, schema: map<string, PyEntry>, t: Table) {
    && SameNames(schema, TableNames(t))
    && forall k :: 0 <= k < |t| && t[k].name in schema ==> EntryIs(f32, schema[t[k].name], t[k])
  }

  /** verify() against a device has nothing to report exactly when the schema holds that device's table: its
      names, each once, and entry by entry the same. */
  lemma VerifiesIff(f32: Float32.Rounding, shown: Shown, schema: map<string, PyEntry>, t: Table, raws: seq<uint32>)
    requires |raws| == |t| && AsciiTable(t) && RoundTrips(f32, shown)
    ensures AllTyped(ListJson(shown, t, raws))
    ensures NoDifference(f32, schema, ListJson(shown, t, raws)) <==> NamesDistinct(t) && HoldsTable(f32, schema, t)
  {
    ListTyped(shown, t, raws);
    NoDifferenceIff(f32, schema, ListJson(shown, t, raws));
    ListedNames(shown, t, raws);
    ListedSame(f32, shown, schema, t, raws);
  }

  lemma ListedNames(shown: Shown, t: Table, raws: seq<uint32>)
    requires |raws| == |t| && AsciiTable(t) && AllTyped(ListJson(shown, t, raws))
    ensures Names(ListJson(shown, t, raws)) == TableNames(t) && (Apart(TableNames(t)) <==> NamesDistinct(t))
  {
    var names := Names(ListJson(shown, t, raws));
    forall k | 0 <= k < |t| ensures names[k] == TableNames(t)[k] {
      EntryNamed(shown, t[k], raws[k]);
    }
    assert names == TableNames(t);
    NamesApart(t);
  }

  lemma EntryNamed(shown: Shown, e: Entry, raw: uint32)
    ensures EntryTyped(EntryJson(shown, e, raw)) && NameOf(EntryJson(shown, e, raw)) == e.name
  {
    EntryJsonTyped(shown, e, raw);
    Looked(shown, e, raw);
  }

  lemma NamesApart(t: Table)
    ensures Apart(TableNames(t)) <==> NamesDistinct(t)
  {
    if Apart(TableNames(t)) {
      forall i, j | 0 <= i < j < |t| ensures t[i].name != t[j].name {
        assert TableNames(t)[i] != TableNames(t)[j];
      }
    }
  }

  lemma ListedSame(f32: Float32.Rounding, shown: Shown, schema: map<string, PyEntry>, t: Table, raws: seq<uint32>)
    requires |raws| == |t| && AsciiTable(t) && RoundTrips(f32, shown) && AllTyped(ListJson(shown, t, raws))
    ensures EachSame(f32, schema, ListJson(shown, t, raws)) <==>
            forall k :: 0 <= k < |t| && t[k].name in schema ==> EntryIs(f32, schema[t[k].name], t[k])
  {
    var items := ListJson(shown, t, raws);
    forall k | 0 <= k < |t|
      ensures NameOf(items[k]) == t[k].name
      ensures t[k].name in schema ==>
                (AllSame(f32, schema[t[k].name], items[k]) <==> EntryIs(f32, schema[t[k].name], t[k]))
    {
      AllSameIff(f32, shown, if t[k].name in schema then schema[t[k].name] else NOTHING, t[k], raws[k]);
    }
  }

  // ----- a schema as the dict it is -----

  function Dict(s: PySchema): map<string, PyEntry> {
    if s == [] then map[] else Dict(s[..|s| - 1])[s[|s| - 1].0 := s[|s| - 1].1]
  }

  function SchemaNames(s: PySchema): (names: seq<string>)
    ensures |names| == |s|
  {
    seq(|s|, k requires 0 <= k < |s| => s[k].0)
  }

  lemma {:induction false} DictKeys(s: PySchema)
    ensures SameNames(Dict(s), SchemaNames(s))
  {
    if s != [] {
      DictKeys(s[..|s| - 1]);
      assert SchemaNames(s) == SchemaNames(s[..|s| - 1]) + [s[|s| - 1].0];
    }
  }

  lemma {:induction false} DictApart(s: PySchema, k: nat)
    requires Apart(SchemaNames(s)) && k < |s|
    ensures s[k].0 in Dict(s) && Dict(s)[s[k].0] == s[k].1
  {
    var last := |s| - 1;
    if k < last {
      assert forall j :: 0 <= j < last ==> SchemaNames(s)[j] == SchemaNames(s[..last])[j];
      assert SchemaNames(s)[k] != SchemaNames(s)[last];
      DictApart(s[..last], k);
    }
  }

  /** A schema with the table's names in its order holds the table if each entry is the device's. */
  lemma DictHolds(f32: Float32.Rounding, s: PySchema, t: Table)
    requires SchemaNames(s) == TableNames(t) && NamesDistinct(t)
    ensures |s| == |t|
    ensures HoldsTable(f32, Dict(s), t) <==> forall k :: 0 <= k < |t| ==> EntryIs(f32, s[k].1, t[k])
  {
    assert |SchemaNames(s)| == |TableNames(t)|;
    NamesApart(t);
    DictKeys(s);
    forall k | 0 <= k < |t| ensures t[k].name in Dict(s) && Dict(s)[t[k].name] == s[k].1 {
      assert SchemaNames(s)[k] == TableNames(t)[k];
      DictApart(s, k);
    }
  }
}
