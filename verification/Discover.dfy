/** A client built from the device's own listing: what discover() accepts of it, and that the schema it ends
    up with is the device's table. */
module Discover {
  import opened Words
  import opened Registers
  import opened Client
  import opened Fingerprint
  import ClientChecks
  import Float32
  import M = MqttMeta
  import Text

  // ----- discover() -----

  function Member(m: map<string, Json>, key: string, missing: Json): Json {
    if key in m then m[key] else missing
  }

  /** A bound of a schema entry; a FLOAT's is rounded to binary32. */
  function BoundOf(f32: Float32.Rounding, ty: RegType, v: Json): Option<Bound> {
    if v.Null? then None
    else if ty == Float && IsNumber(v) then Some(PyFloat(f32(Amount(v))))
    else if v.Int? then Some(PyInt(v.n))
    else None
  }

  predicate BoundsOk(f32: Float32.Rounding, ty: RegType, mn: Json, mx: Json) {
    && (mn.Null? <==> mx.Null?)
    && (!mn.Null? ==>
         && ty != RegType.Bool && InDomain(f32, ty, mn) && InDomain(f32, ty, mx)
         && Amount(mn) <= Amount(mx))
  }

  /** One entry of a listing that passed the checks of _list, as a schema entry. */
  function ReadEntry(f32: Float32.Rounding, e: Json): Option<(string, PyEntry)>
    requires EntryTyped(e)
  {
    var m := e.members;
    var ty, mn, mx := TypeNamed(m["type"].s).value, Member(m, "min", Null), Member(m, "max", Null);
    var mb, desc := Member(m, "modbus", Int(0)), Member(m, "desc", Str(""));
    if BoundsOk(f32, ty, mn, mx) && mb.Int? && 0 <= mb.n <= 0xFFFF && desc.Str? then
      Some((m["name"].s, PyEntry(ty, if m["perm"].s == "RO" then RO else RW, BoundOf(f32, ty, mn), BoundOf(f32, ty, mx),
                                 mb.n, desc.s)))
    else None
  }

  predicate Named(schema: PySchema, name: string) {
    exists k :: 0 <= k < |schema| && schema[k].0 == name
  }

  /** The schema from the i-th item on, unless something is wrong. */
  function ReadFrom(f32: Float32.Rounding, items: seq<Json>, i: nat, schema: PySchema): Option<PySchema>
    requires i <= |items| && AllTyped(items)
    decreases |items| - i
  {
    if i == |items| then Some(schema)
    else
      match ReadEntry(f32, items[i])
      case None => None
      case Some(e) => if Named(schema, e.0) then None else ReadFrom(f32, items, i + 1, schema + [e])
  }

  predicate AllTyped(items: seq<Json>) {
    forall k :: 0 <= k < |items| ==> EntryTyped(items[k])
  }

  predicate AllShaped(f32: Float32.Rounding, items: seq<Json>) {
    forall k :: 0 <= k < |items| ==> EntryShaped(f32, items[k])
  }

  /** What discover() makes of a listing: the checks of _list, then its own. */
  function Discovered(f32: Float32.Rounding, items: seq<Json>): Option<PySchema> {
    if AllShaped(f32, items) then ReadFrom(f32, items, 0, []) else None
  }

  method ReadSchema(f32: Float32.Rounding, items: seq<Json>) returns (schema: Option<PySchema>)
    requires AllTyped(items)
    ensures schema == ReadFrom(f32, items, 0, [])
  {
    var sofar: PySchema := [];
    for i := 0 to |items|
      invariant ReadFrom(f32, items, i, sofar) == ReadFrom(f32, items, 0, [])
    {
      var e := ReadEntry(f32, items[i]);
      if e.None? { return None; }
      if Named(sofar, e.value.0) { return None; }
      sofar := sofar + [e.value];
    }
    return Some(sofar);
  }

  /** The rounding of values in _list is none of the schema's business. */
  lemma {:induction false} RoundingIgnored(f32: Float32.Rounding, items: seq<Json>, i: nat, schema: PySchema)
    requires i <= |items| && AllShaped(f32, items)
    ensures AllTyped(RoundedAll(f32, items))
    ensures ReadFrom(f32, RoundedAll(f32, items), i, schema) == ReadFrom(f32, items, i, schema)
    decreases |items| - i
  {
    if i < |items| {
      EntryRounding(f32, items[i]);
      var e := ReadEntry(f32, items[i]);
      if e.Some? { RoundingIgnored(f32, items, i + 1, schema + [e.value]); }
    }
  }

  lemma EntryRounding(f32: Float32.Rounding, e: Json)
    requires EntryShaped(f32, e)
    ensures ReadEntry(f32, Rounded(f32, e)) == ReadEntry(f32, e)
  {
  }

  /** discover() on a fresh client: the schema of the listing, or a connection closed for good. */
  method DiscoverTable(probe: RegtableClient, answers: nat -> Json, f32: Float32.Rounding, env: Env)
    returns (schema: Option<PySchema>)
    requires Paired(probe.State()) && !probe.dead
    modifies probe`dead, probe.t
    ensures Paired(probe.State()) && (schema.None? <==> probe.dead)
    ensures schema.Some? ==>
              var k := |old(probe.t.wire.written)|;
              && probe.t.wire.written == old(probe.t.wire.written) + [Command(Snapshot)]
              && answers(k).Array? && schema == Discovered(f32, answers(k).items)
  {
    CmdPairs(probe.State(), Command(Snapshot), env);
    PerformPairs(answers, f32, map[], probe.State(), Snapshot, env);
    ghost var k := |probe.t.wire.written|;
    var r := probe.Do(answers, f32, map[], Snapshot, env);
    if !r.Listed? { return None; }
    RoundingIgnored(f32, answers(k).items, 0, []);
    schema := ReadSchema(f32, r.items);
    if schema.None? { probe.GiveUp(); }
  }

  // ----- the device's listing -----

  /** The number the host reads from the text %.9g of a finite binary32. */
  type Shown = uint32 -> Json

  /** %.9g is enough for a binary32: what the host reads rounds to it, a negative zero to zero, which prints
      as zero. The largest prints as 3.40282347e+38, more than it is. */
  ghost predicate RoundTrips(f32: Float32.Rounding, shown: Shown) {
    && (forall b: uint32 :: Float32.IsFinite(b) ==>
         && IsNumber(shown(b)) && f32(Amount(shown(b))) == ThroughJson(Float, b)
         && (Float32.Magnitude(b) == 0 ==> Amount(shown(b)) == 0.0))
    && Near(shown(Float32.MAX_FINITE), PRINTED_MAX)
    && Near(shown(Float32.SIGN + Float32.MAX_FINITE), -PRINTED_MAX)
  }

  const PRINTED_MAX: real := 340282347000000000000000000000000000000.0

  /** The double nearest to a decimal of this size is nearer than this. */
  predicate Near(v: Json, x: real) {
    IsNumber(v) && x - 1000000000000000000000000.0 < Amount(v) < x + 1000000000000000000000000.0
  }

  function NumberJson(shown: Shown, ty: RegType, raw: uint32): Json {
    if ty == Float then (if Float32.IsFinite(raw) then shown(raw) else Null)
    else if IsSigned(ty) then Int(Signed(raw))
    else Int(raw)
  }

  function ValueJson(shown: Shown, ty: RegType, raw: uint32): Json {
    if ty == RegType.Bool then Json.Bool(raw != 0) else NumberJson(shown, ty, raw)
  }

  /** One register of list --json, holding raw. */
  function EntryJson(shown: Shown, e: Entry, raw: uint32): Json {
    Object(map["name" := Str(e.name), "type" := Str(M.TypeName(e.rtype)),
               "perm" := Str(if e.perm == RO then "RO" else "RW"), "value" := ValueJson(shown, e.rtype, raw)]
           + (if HasRange(e) then
                map["min" := NumberJson(shown, e.rtype, e.min), "max" := NumberJson(shown, e.rtype, e.max)]
              else map[])
           + (if e.modbusAddr != 0 then map["modbus" := Int(e.modbusAddr)] else map[])
           + (if e.description.Some? then map["desc" := Str(e.description.value)] else map[]))
  }

  /** A value a host can read: in its type, and for FLOAT finite and not the largest of its sign. */
  predicate Readable(ty: RegType, raw: uint32) {
    InType(ty, raw) && (ty == Float ==> Float32.Magnitude(raw) != Float32.MAX_FINITE)
  }

  /** Bounds a host accepts: none for BOOL, readable ones in order. */
  predicate BoundsReadable(e: Entry) {
    HasRange(e) ==>
      && e.rtype != RegType.Bool && Readable(e.rtype, e.min) && Readable(e.rtype, e.max)
      && Number(e.rtype, e.min) <= Number(e.rtype, e.max)
  }

  lemma TypeNames(ty: RegType)
    ensures TypeNamed(M.TypeName(ty)) == Some(ty)
  {
  }

  /** in_domain accepts the printed number of every finite binary32 except the two largest. */
  lemma FloatReadable(f32: Float32.Rounding, shown: Shown, b: uint32)
    requires Float32.Rounds(f32) && RoundTrips(f32, shown) && Float32.IsFinite(b)
    ensures InDomain(f32, Float, shown(b)) <==> Float32.Magnitude(b) != Float32.MAX_FINITE
  {
    Float32.RoundsWithin(f32, Amount(shown(b)));
  }

  /** Printed numbers are in the order of the numbers printed. */
  lemma PrintedOrder(f32: Float32.Rounding, shown: Shown, a: uint32, b: uint32)
    requires Float32.Rounds(f32) && RoundTrips(f32, shown) && Float32.IsFinite(a) && Float32.IsFinite(b)
    ensures Amount(shown(a)) <= Amount(shown(b)) <==> Float32.Value(a) <= Float32.Value(b)
  {
    Float32.KeyIsNumericOrder(a, b);
    var x, y := Amount(shown(a)), Amount(shown(b));
    assert x <= y ==> Float32.Key(f32(x)) <= Float32.Key(f32(y));
    assert y <= x ==> Float32.Key(f32(y)) <= Float32.Key(f32(x));
  }

  lemma ValueReadable(f32: Float32.Rounding, shown: Shown, ty: RegType, raw: uint32)
    requires Float32.Rounds(f32) && RoundTrips(f32, shown)
    ensures ty != RegType.Bool ==> (InDomain(f32, ty, NumberJson(shown, ty, raw)) <==> Readable(ty, raw))
  {
    if ty == Float && Float32.IsFinite(raw) { FloatReadable(f32, shown, raw); }
  }

  function Lower(shown: Shown, e: Entry): Json {
    if HasRange(e) then NumberJson(shown, e.rtype, e.min) else Null
  }

  function Upper(shown: Shown, e: Entry): Json {
    if HasRange(e) then NumberJson(shown, e.rtype, e.max) else Null
  }

  lemma Looked(shown: Shown, e: Entry, raw: uint32)
    ensures var m := EntryJson(shown, e, raw).members;
      && "name" in m && m["name"] == Str(e.name) && "type" in m && m["type"] == Str(M.TypeName(e.rtype))
      && "perm" in m && m["perm"] == Str(if e.perm == RO then "RO" else "RW")
      && "value" in m && m["value"] == ValueJson(shown, e.rtype, raw)
  {
  }

  lemma LookedOptional(shown: Shown, e: Entry, raw: uint32)
    ensures var m := EntryJson(shown, e, raw).members;
      && Member(m, "min", Null) == Lower(shown, e) && Member(m, "max", Null) == Upper(shown, e)
      && Member(m, "modbus", Int(0)) == Int(e.modbusAddr) && Member(m, "desc", Str("")) == Str(Description(e))
  {
  }

  lemma EntryJsonTyped(shown: Shown, e: Entry, raw: uint32)
    ensures EntryTyped(EntryJson(shown, e, raw))
  {
    TypeNames(e.rtype);
    Looked(shown, e, raw);
  }

  /** The checks of _list pass a register exactly when a host can read its value. */
  lemma ShapedIff(f32: Float32.Rounding, shown: Shown, e: Entry, raw: uint32)
    requires Float32.Rounds(f32) && RoundTrips(f32, shown)
    ensures EntryShaped(f32, EntryJson(shown, e, raw)) <==> e.rtype == RegType.Bool || Readable(e.rtype, raw)
  {
    TypeNames(e.rtype);
    Looked(shown, e, raw);
    ValueReadable(f32, shown, e.rtype, raw);
  }

  lemma BoundsIff(f32: Float32.Rounding, shown: Shown, e: Entry)
    requires Float32.Rounds(f32) && RoundTrips(f32, shown)
    ensures BoundsReadable(e) <==>
            && BoundsOk(f32, e.rtype, Lower(shown, e), Upper(shown, e))
            && BoundOf(f32, e.rtype, Lower(shown, e)) == SchemaEntry(e).min
            && BoundOf(f32, e.rtype, Upper(shown, e)) == SchemaEntry(e).max
  {
    ValueReadable(f32, shown, e.rtype, e.min);
    ValueReadable(f32, shown, e.rtype, e.max);
    if e.rtype == Float && Float32.IsFinite(e.min) && Float32.IsFinite(e.max) {
      PrintedOrder(f32, shown, e.min, e.max);
    }
  }

  /** One register of the listing becomes its schema entry exactly when a host can hold its bounds. */
  lemma ReadEntryIff(f32: Float32.Rounding, shown: Shown, e: Entry, raw: uint32)
    requires Float32.Rounds(f32) && RoundTrips(f32, shown)
    ensures EntryTyped(EntryJson(shown, e, raw))
    ensures ReadEntry(f32, EntryJson(shown, e, raw)) == Some((e.name, SchemaEntry(e))) <==> BoundsReadable(e)
  {
    EntryJsonTyped(shown, e, raw);
    TypeNames(e.rtype);
    Looked(shown, e, raw);
    LookedOptional(shown, e, raw);
    BoundsIff(f32, shown, e);
  }

  // ----- a whole table -----

  /** list --json of a table of ASCII texts whose registers hold these values. */
  function ListJson(shown: Shown, t: Table, raws: seq<uint32>): (items: seq<Json>)
    requires |raws| == |t| && AsciiTable(t)
    ensures |items| == |t|
  {
    seq(|t|, i requires 0 <= i < |t| => EntryJson(shown, t[i], raws[i]))
  }

  /** A host can read every register's value. */
  predicate ValuesReadable(t: Table, raws: seq<uint32>)
    requires |raws| == |t|
  {
    forall k :: 0 <= k < |t| ==> t[k].rtype == RegType.Bool || Readable(t[k].rtype, raws[k])
  }

  predicate NamesDistinct(t: Table) {
    forall i, j :: 0 <= i < j < |t| ==> t[i].name != t[j].name
  }

  predicate AllBoundsReadable(t: Table) {
    forall k :: 0 <= k < |t| ==> BoundsReadable(t[k])
  }

  lemma ListTyped(shown: Shown, t: Table, raws: seq<uint32>)
    requires |raws| == |t| && AsciiTable(t)
    ensures AllTyped(ListJson(shown, t, raws))
  {
    forall k | 0 <= k < |t| ensures EntryTyped(ListJson(shown, t, raws)[k]) { EntryJsonTyped(shown, t[k], raws[k]); }
  }

  lemma ListShapedIff(f32: Float32.Rounding, shown: Shown, t: Table, raws: seq<uint32>)
    requires |raws| == |t| && AsciiTable(t) && Float32.Rounds(f32) && RoundTrips(f32, shown)
    ensures AllShaped(f32, ListJson(shown, t, raws)) <==> ValuesReadable(t, raws)
  {
    var items := ListJson(shown, t, raws);
    forall k | 0 <= k < |t|
      ensures EntryShaped(f32, items[k]) <==> t[k].rtype == RegType.Bool || Readable(t[k].rtype, raws[k])
    {
      ShapedIff(f32, shown, t[k], raws[k]);
    }
  }

  /** Whatever comes out starts with what went in, and holds each item's entry, under a new name. */
  lemma {:induction false} ReadExtends(f32: Float32.Rounding, items: seq<Json>, i: nat, schema: PySchema)
    requires i <= |items| && AllTyped(items) && ReadFrom(f32, items, i, schema).Some?
    ensures var out := ReadFrom(f32, items, i, schema).value;
      && |out| == |schema| + |items| - i && schema <= out
      && forall k :: i <= k < |items| ==> ReadEntry(f32, items[k]) == Some(out[|schema| + k - i])
    ensures var out := ReadFrom(f32, items, i, schema).value;
      forall a, b :: 0 <= a < b < |out| && |schema| <= b ==> out[a].0 != out[b].0
    decreases |items| - i
  {
    if i < |items| { ReadExtends(f32, items, i + 1, schema + [ReadEntry(f32, items[i]).value]); }
  }

  lemma ItemIff(f32: Float32.Rounding, shown: Shown, t: Table, raws: seq<uint32>, i: nat)
    requires |raws| == |t| && i < |t| && AsciiTable(t) && Float32.Rounds(f32) && RoundTrips(f32, shown)
    ensures EntryTyped(ListJson(shown, t, raws)[i])
    ensures ReadEntry(f32, ListJson(shown, t, raws)[i]) == Some(SchemaOf(t)[i]) <==> BoundsReadable(t[i])
  {
    ReadEntryIff(f32, shown, t[i], raws[i]);
  }

  /** If every item reads as the entry of `out` in its place, under distinct names, the loop yields `out`. */
  lemma {:induction false} ReadsOn(f32: Float32.Rounding, items: seq<Json>, i: nat, out: PySchema)
    requires i <= |items| == |out| && AllTyped(items)
    requires forall k :: 0 <= k < |items| ==> ReadEntry(f32, items[k]) == Some(out[k])
    requires forall j, k :: 0 <= j < k < |out| ==> out[j].0 != out[k].0
    ensures ReadFrom(f32, items, i, out[..i]) == Some(out)
    decreases |items| - i
  {
    if i == |items| {
      assert out[..i] == out;
    } else {
      assert out[..i] + [out[i]] == out[..i + 1];
      ReadsOn(f32, items, i + 1, out);
    }
  }

  /** And conversely. */
  lemma ReadsOnly(f32: Float32.Rounding, items: seq<Json>, out: PySchema)
    requires AllTyped(items) && ReadFrom(f32, items, 0, []) == Some(out)
    ensures |out| == |items| && forall k :: 0 <= k < |items| ==> ReadEntry(f32, items[k]) == Some(out[k])
    ensures forall j, k :: 0 <= j < k < |out| ==> out[j].0 != out[k].0
  {
    ReadExtends(f32, items, 0, []);
  }

  lemma DiscoversTable(f32: Float32.Rounding, shown: Shown, t: Table, raws: seq<uint32>)
    requires |raws| == |t| && AsciiTable(t) && Float32.Rounds(f32) && RoundTrips(f32, shown)
    requires NamesDistinct(t) && AllBoundsReadable(t)
    ensures AllTyped(ListJson(shown, t, raws)) && ReadFrom(f32, ListJson(shown, t, raws), 0, []) == Some(SchemaOf(t))
  {
    var items, out := ListJson(shown, t, raws), SchemaOf(t);
    ListTyped(shown, t, raws);
    forall k | 0 <= k < |t| ensures ReadEntry(f32, items[k]) == Some(out[k]) { ItemIff(f32, shown, t, raws, k); }
    forall j, k | 0 <= j < k < |t| ensures out[j].0 != out[k].0 { assert t[j].name != t[k].name; }
    ReadsOn(f32, items, 0, out);
  }

  lemma DiscoversOnly(f32: Float32.Rounding, shown: Shown, t: Table, raws: seq<uint32>)
    requires |raws| == |t| && AsciiTable(t) && Float32.Rounds(f32) && RoundTrips(f32, shown)
    requires AllTyped(ListJson(shown, t, raws)) && ReadFrom(f32, ListJson(shown, t, raws), 0, []) == Some(SchemaOf(t))
    ensures NamesDistinct(t) && AllBoundsReadable(t)
  {
    ReadsOnly(f32, ListJson(shown, t, raws), SchemaOf(t));
    forall k | 0 <= k < |t| ensures BoundsReadable(t[k]) { ItemIff(f32, shown, t, raws, k); }
    forall i, j | 0 <= i < j < |t| ensures t[i].name != t[j].name { assert SchemaOf(t)[i].0 != SchemaOf(t)[j].0; }
  }

  /** discover() ends up with exactly the device's table if and only if every value and every range is one a
      host can read, and names are distinct. */
  lemma DiscoversTableIff(f32: Float32.Rounding, shown: Shown, t: Table, raws: seq<uint32>)
    requires |raws| == |t| && AsciiTable(t) && Float32.Rounds(f32) && RoundTrips(f32, shown)
    ensures Discovered(f32, ListJson(shown, t, raws)) == Some(SchemaOf(t)) <==>
            ValuesReadable(t, raws) && NamesDistinct(t) && AllBoundsReadable(t)
  {
    ListShapedIff(f32, shown, t, raws);
    ListTyped(shown, t, raws);
    if NamesDistinct(t) && AllBoundsReadable(t) { DiscoversTable(f32, shown, t, raws); }
    if ReadFrom(f32, ListJson(shown, t, raws), 0, []) == Some(SchemaOf(t)) { DiscoversOnly(f32, shown, t, raws); }
  }

  /** The largest binary32 is a value a register may hold and the generator accepts as a bound; its printed
      form is beyond the largest binary32, and no table with one is discovered. */
  lemma LargestRefused(f32: Float32.Rounding, shown: Shown, e: Entry, raw: uint32)
    requires Float32.Rounds(f32) && RoundTrips(f32, shown) && e.rtype == Float
    ensures Legal(e.(min := 0, max := Float32.MAX_FINITE), Float32.MAX_FINITE)
    ensures !EntryShaped(f32, EntryJson(shown, e, Float32.MAX_FINITE))
    ensures var bounded := EntryJson(shown, e.(min := 0, max := Float32.MAX_FINITE), raw);
      EntryTyped(bounded) && ReadEntry(f32, bounded) == None
  {
    var bounded := e.(min := 0, max := Float32.MAX_FINITE);
    Float32.KeyIsNumericOrder(0, Float32.MAX_FINITE);
    ShapedIff(f32, shown, e, Float32.MAX_FINITE);
    EntryJsonTyped(shown, bounded, raw);
    TypeNames(Float);
    Looked(shown, bounded, raw);
    LookedOptional(shown, bounded, raw);
    FloatReadable(f32, shown, Float32.MAX_FINITE);
  }

  /** Of a discovered table host and device hash the same bytes, and so compute the same fingerprint, exactly
      when no FLOAT bound is a negative zero. */
  lemma DiscoveredFingerprint(f32: Float32.Rounding, shown: Shown, t: Table, raws: seq<uint32>)
    requires |raws| == |t| && AsciiTable(t) && Float32.Rounds(f32) && RoundTrips(f32, shown)
    requires ValuesReadable(t, raws) && NamesDistinct(t) && AllBoundsReadable(t)
    ensures var schema := Discovered(f32, ListJson(shown, t, raws));
      && schema.Some? && Packable(f32, schema.value)
      && (PyEncode(f32, schema.value) == Encode(t) <==> forall k :: 0 <= k < |t| ==> NoNegativeZero(t[k]))
      && ((forall k :: 0 <= k < |t| ==> NoNegativeZero(t[k])) ==>
            Fold(OFFSET_BASIS, PyEncode(f32, schema.value)) == Schema(t))
  {
    DiscoversTableIff(f32, shown, t, raws);
    SchemaPackable(f32, t);
    EncodingsAgreeIff(f32, t);
  }

  /** And the local check on a discovered integer register accepts exactly what the device makes a legal
      value of. */
  lemma DiscoveredChecksAgree(c: Text.Libc, e: Entry)
    requires BoundsReadable(e) && e.rtype != Float && e.rtype != RegType.Bool
    ensures forall n: int :: ClientChecks.Agrees(c, e, n)
  {
    ClientChecks.ChecksAgreeIff(c, e);
  }
}
