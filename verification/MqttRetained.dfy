/** The retained self-description seen from a host: however many firmware builds announced themselves and
    whatever was lost on the way, the host reconstructs one of the announced tables or none. */
module MqttRetained {
  import opened Words
  import opened Registers
  import opened Fingerprint
  import opened JsonObject
  import opened MqttReadable
  import opened MqttTopics
  import Json
  import M = MqttMeta
  import Mqtt
  import Sync = MqttSync
  import Text

  /** One firmware build: its table, the identity it sets, and what was fixed when it was compiled. */
  datatype Build = Build(t: Table, id: M.Identity, built: string, metaSize: nat)

  function Said(c: Text.Libc, prefix: string, b: Build): (ms: seq<Mqtt.Message>)
    ensures |ms| == |b.t| + 2
  {
    Mqtt.Announcement(c, b.t, prefix, b.id, b.built, b.metaSize)
  }

  /** A build announces itself and each of its messages arrives or not; or somebody publishes elsewhere. */
  datatype Event = Announce(b: Build, net: Sync.Network) | Other(topic: string, payload: string)

  predicate UnderMeta(prefix: string, topic: string) {
    prefix + "/$meta/" <= topic
  }

  function After(c: Text.Libc, prefix: string, broker: map<string, string>, e: Event): map<string, string> {
    match e
    case Announce(b, net) => Mqtt.Delivered(broker, Said(c, prefix, b), net)
    case Other(topic, payload) => if UnderMeta(prefix, topic) then broker else broker[topic := payload]
  }

  function Run(c: Text.Libc, prefix: string, broker: map<string, string>, events: seq<Event>): map<string, string> {
    if events == [] then broker
    else After(c, prefix, Run(c, prefix, broker, events[..|events| - 1]), events[|events| - 1])
  }

  ghost function Builds(events: seq<Event>): set<Build> {
    set e | e in events && e.Announce? :: e.b
  }

  // ----- where a retained message under $meta comes from -----

  ghost predicate SaidBy(c: Text.Libc, prefix: string, b: Build, topic: string, payload: string) {
    exists k :: 0 <= k < |b.t| + 2 && Said(c, prefix, b)[k] == Mqtt.Message(topic, payload)
  }

  ghost predicate FromBuilds(c: Text.Libc, prefix: string, builds: set<Build>, broker: map<string, string>) {
    forall topic :: topic in broker && UnderMeta(prefix, topic) ==> SaidByOne(c, prefix, builds, topic, broker[topic])
  }

  ghost predicate SaidByOne(c: Text.Libc, prefix: string, builds: set<Build>, topic: string, payload: string) {
    exists b :: b in builds && SaidBy(c, prefix, b, topic, payload)
  }

  lemma {:induction false} DeliveredIs(broker: map<string, string>, ms: seq<Mqtt.Message>, net: Sync.Network,
                                       topic: string)
    requires topic in Mqtt.Delivered(broker, ms, net)
    ensures var payload := Mqtt.Delivered(broker, ms, net)[topic];
      || (topic in broker && broker[topic] == payload)
      || exists k :: 0 <= k < |ms| && ms[k] == Mqtt.Message(topic, payload)
  {
    if ms != [] {
      var last := |ms| - 1;
      if net(last) == Sync.RefusedAndLost || topic != ms[last].topic {
        DeliveredIs(broker, ms[..last], net, topic);
      } else {
        assert ms[last] == Mqtt.Message(topic, ms[last].payload);
      }
    }
  }

  lemma {:induction false} RunFrom(c: Text.Libc, prefix: string, broker: map<string, string>, events: seq<Event>)
    requires FromBuilds(c, prefix, {}, broker)
    ensures FromBuilds(c, prefix, Builds(events), Run(c, prefix, broker, events))
  {
    if events == [] {
      assert Builds(events) == {};
    } else {
      RunFrom(c, prefix, broker, events[..|events| - 1]);
      FromNext(c, prefix, broker, events);
    }
  }

  lemma FromNext(c: Text.Libc, prefix: string, broker: map<string, string>, events: seq<Event>)
    requires events != []
    requires var before := events[..|events| - 1]; FromBuilds(c, prefix, Builds(before), Run(c, prefix, broker, before))
    ensures FromBuilds(c, prefix, Builds(events), Run(c, prefix, broker, events))
  {
    var before, e := events[..|events| - 1], events[|events| - 1];
    BuildsNext(events);
    AfterFrom(c, prefix, Builds(before), Builds(events), Run(c, prefix, broker, before), e);
  }

  lemma BuildsNext(events: seq<Event>)
    requires events != []
    ensures Builds(events[..|events| - 1]) <= Builds(events)
    ensures var e := events[|events| - 1]; e.Announce? ==> e.b in Builds(events)
  {
    assert forall e :: e in events[..|events| - 1] ==> e in events;
    assert events[|events| - 1] in events;
  }

  lemma AfterFrom(c: Text.Libc, prefix: string, before: set<Build>, builds: set<Build>, broker: map<string, string>,
                  e: Event)
    requires FromBuilds(c, prefix, before, broker) && before <= builds && (e.Announce? ==> e.b in builds)
    ensures FromBuilds(c, prefix, builds, After(c, prefix, broker, e))
  {
    var now := After(c, prefix, broker, e);
    forall topic | topic in now && UnderMeta(prefix, topic)
      ensures SaidByOne(c, prefix, builds, topic, now[topic])
    {
      if e.Announce? { DeliveredIs(broker, Said(c, prefix, e.b), e.net, topic); }
      if topic in broker && broker[topic] == now[topic] {
        assert SaidByOne(c, prefix, before, topic, broker[topic]);
      } else {
        assert SaidBy(c, prefix, e.b, topic, now[topic]);
      }
    }
  }

  // ----- what the members say -----

  function EntryItems(c: Text.Libc, t: Table, i: nat, withDesc: bool): seq<Item>
    requires i < |t|
  {
    [NameItem(t[i])] + MetaItems(c, t[i], i, withDesc, Schema(t))
  }

  lemma {:induction false} DecimalInjective(m: nat, n: nat)
    ensures Text.Decimal(m) == Text.Decimal(n) <==> m == n
  {
    Text.DecimalReads(m);
    Text.DecimalReads(n);
  }

  lemma HexDigitInjective(digit: char, a: nat, b: nat)
    requires a < 16 && b < 16 && digit == Json.HexDigit(a) == Json.HexDigit(b)
    ensures a == b
  {
  }

  lemma Hex2Injective(x: uint8, y: uint8)
    requires M.Hex2(x) == M.Hex2(y)
    ensures x == y
  {
    HexDigitInjective(M.Hex2(x)[0], x / 16, y / 16);
    HexDigitInjective(M.Hex2(x)[1], x % 16, y % 16);
  }

  lemma Hex4Injective(x: uint16, y: uint16)
    requires M.Hex4(x) == M.Hex4(y)
    ensures x == y
  {
    assert M.Hex4(x)[..2] == M.Hex2(x / 0x100) && M.Hex4(x)[2..] == M.Hex2(x % 0x100);
    assert M.Hex4(y)[..2] == M.Hex2(y / 0x100) && M.Hex4(y)[2..] == M.Hex2(y % 0x100);
    Hex2Injective(x / 0x100, y / 0x100);
    Hex2Injective(x % 0x100, y % 0x100);
  }

  lemma Hex8Injective(x: uint32, y: uint32)
    ensures M.Hex8(x) == M.Hex8(y) <==> x == y
  {
    if M.Hex8(x) == M.Hex8(y) {
      assert M.Hex8(x)[..4] == M.Hex4(x / 0x1_0000) && M.Hex8(x)[4..] == M.Hex4(x % 0x1_0000);
      assert M.Hex8(y)[..4] == M.Hex4(y / 0x1_0000) && M.Hex8(y)[4..] == M.Hex4(y % 0x1_0000);
      Hex4Injective(x / 0x1_0000, y / 0x1_0000);
      Hex4Injective(x % 0x1_0000, y % 0x1_0000);
    }
  }

  /** The fingerprint and the index an entry's members carry. */
  lemma EntrySays(c: Text.Libc, t: Table, i: nat, withDesc: bool, schema: string, index: string)
    requires i < |t|
    ensures Item("schema", Str(schema)) in EntryItems(c, t, i, withDesc) <==> schema == M.Hex8(Schema(t))
    ensures Item("index", Bare(index)) in EntryItems(c, t, i, withDesc) <==> index == Text.Decimal(i)
  {
    var ms := EntryItems(c, t, i, withDesc);
    assert ms[|ms| - 1] == SchemaItem(Schema(t));
    assert ms[3] == NumberItem("index", i);
  }

  // ----- the host -----

  /** What the descriptor says. */
  datatype Promise = Promise(count: string, schema: string)

  /** The host takes $table ... */
  ghost predicate Promises(prefix: string, broker: map<string, string>, p: Promise) {
    var topic := MetaTopic(prefix, "$table");
    topic in broker && Parse(broker[topic]) == Some([Item("count", Bare(p.count)), Item("schema", Str(p.schema))])
  }

  /** ... keeps, under names that can be registers, only metas whose schema matches it ... */
  ghost predicate Kept(prefix: string, broker: map<string, string>, p: Promise, name: string, ms: seq<Item>) {
    && name != "" && name[0] != '$' && MetaTopic(prefix, name) in broker
    && Parse(broker[MetaTopic(prefix, name)]) == Some(ms)
    && Item("schema", Str(p.schema)) in ms
  }

  ghost predicate Covered(prefix: string, broker: map<string, string>, p: Promise, i: nat) {
    exists name, ms :: Kept(prefix, broker, p, name, ms) && Item("index", Bare(Text.Decimal(i))) in ms
  }

  /** ... and has the whole table once those cover every index. */
  ghost predicate Complete(prefix: string, broker: map<string, string>, p: Promise) {
    exists n: nat :: p.count == Text.Decimal(n) && forall i: nat :: i < n ==> Covered(prefix, broker, p, i)
  }

  // ----- never mixed -----

  /** The metas of a table as a host can see them: with or without the description. */
  ghost predicate Describes(c: Text.Libc, t: Table, name: string, ms: seq<Item>) {
    exists i: nat, withDesc :: i < |t| && name == t[i].name && ms == EntryItems(c, t, i, withDesc)
  }

  predicate Honest(b: Build) {
    CTable(b.t) && NamesOk(b.t)
  }

  /** The fingerprint tells the announced tables apart. */
  ghost predicate Told(builds: set<Build>) {
    forall a, b :: a in builds && b in builds && Schema(a.t) == Schema(b.t) ==> Encode(a.t) == Encode(b.t)
  }

  lemma MetaNames(prefix: string, a: string, b: string)
    ensures MetaTopic(prefix, a) == MetaTopic(prefix, b) <==> a == b
  {
    PrefixCancels(prefix, "$meta/" + a, "$meta/" + b);
    assert ("$meta/" + a)[6..] == a && ("$meta/" + b)[6..] == b;
  }

  /** Message k of an announcement goes to this name under $meta. */
  function NameAt(t: Table, k: nat): string
    requires k < |t| + 2
  {
    if k == 0 then "$table" else if k == 1 then "$id" else t[k - 2].name
  }

  lemma HeadTopicsAt(c: Text.Libc, prefix: string, b: Build)
    ensures Said(c, prefix, b)[0].topic == MetaTopic(prefix, "$table")
    ensures Said(c, prefix, b)[1].topic == MetaTopic(prefix, "$id")
  {
    HeadNames();
    HeadsSaid(c, prefix, b);
    UnderPrefix(prefix, "$table", Tail(b.t, Descriptor));
    UnderPrefix(prefix, "$id", Tail(b.t, Identity));
  }

  lemma UnderPrefix(prefix: string, name: string, tail: string)
    requires "$meta/" + name == tail
    ensures prefix + "/" + tail == MetaTopic(prefix, name)
  {
  }

  lemma HeadNames()
    ensures "$meta/" + "$table" == "$meta/$table" && "$meta/" + "$id" == "$meta/$id"
  {
  }

  lemma HeadsSaid(c: Text.Libc, prefix: string, b: Build)
    ensures Said(c, prefix, b)[0] == Mqtt.DescriptorMessage(b.t, prefix)
    ensures Said(c, prefix, b)[1] == Mqtt.IdentityMessage(b.t, prefix, b.id, b.built)
  {
  }

  lemma TopicAt(c: Text.Libc, prefix: string, b: Build, k: nat)
    requires k < |b.t| + 2
    ensures Said(c, prefix, b)[k].topic == MetaTopic(prefix, NameAt(b.t, k))
  {
    if k < 2 { HeadTopicsAt(c, prefix, b); } else { MetaTopicAt(c, prefix, b, k - 2); }
  }

  lemma MetaTopicAt(c: Text.Libc, prefix: string, b: Build, i: nat)
    requires i < |b.t|
    ensures Said(c, prefix, b)[i + 2].topic == MetaTopic(prefix, b.t[i].name)
  {
  }

  lemma SaidUnder(c: Text.Libc, prefix: string, b: Build, name: string, payload: string) returns (k: nat)
    requires SaidBy(c, prefix, b, MetaTopic(prefix, name), payload)
    ensures k < |b.t| + 2 && name == NameAt(b.t, k) && payload == Said(c, prefix, b)[k].payload
  {
    k :| 0 <= k < |b.t| + 2 && Said(c, prefix, b)[k] == Mqtt.Message(MetaTopic(prefix, name), payload);
    TopicAt(c, prefix, b, k);
    MetaNames(prefix, name, NameAt(b.t, k));
  }

  lemma SaidMeta(c: Text.Libc, prefix: string, b: Build, i: nat)
    requires i < |b.t|
    ensures Said(c, prefix, b)[i + 2] == Mqtt.MetaMessage(c, b.t, prefix, i, b.metaSize)
  {
  }

  lemma DollarNames()
    ensures "$table" != "$id" && "$table"[0] == '$' && "$id"[0] == '$'
  {
    assert "$table"[1] == 't' && "$id"[1] == 'i';
  }

  /** A meta some build said, as the host reads it. */
  lemma KeptIsSaid(c: Text.Libc, prefix: string, broker: map<string, string>, builds: set<Build>, p: Promise,
                   name: string, ms: seq<Item>) returns (b: Build, i: nat, withDesc: bool)
    requires PrintsNumbers(c) && FromBuilds(c, prefix, builds, broker) && Kept(prefix, broker, p, name, ms)
    requires forall b :: b in builds ==> Honest(b)
    ensures b in builds && i < |b.t| && name == b.t[i].name && ms == EntryItems(c, b.t, i, withDesc)
    ensures p.schema == M.Hex8(Schema(b.t))
  {
    var k;
    b, k := WhoSaid(c, prefix, broker, builds, name);
    i, withDesc := MetaIsRead(c, prefix, b, k, broker[MetaTopic(prefix, name)], name, p.schema, ms);
  }

  /** The build, and the message of its announcement, that a retained meta of this name comes from. */
  lemma WhoSaid(c: Text.Libc, prefix: string, broker: map<string, string>, builds: set<Build>, name: string)
    returns (b: Build, k: nat)
    requires FromBuilds(c, prefix, builds, broker) && MetaTopic(prefix, name) in broker
    ensures b in builds && k < |b.t| + 2 && name == NameAt(b.t, k)
    ensures broker[MetaTopic(prefix, name)] == Said(c, prefix, b)[k].payload
  {
    var topic := MetaTopic(prefix, name);
    MetaUnder(prefix, name);
    assert SaidByOne(c, prefix, builds, topic, broker[topic]);
    b :| b in builds && SaidBy(c, prefix, b, topic, broker[topic]);
    k := SaidUnder(c, prefix, b, name, broker[topic]);
  }

  lemma MetaIndex(t: Table, k: nat, name: string)
    requires k < |t| + 2 && name == NameAt(t, k) && name != "" && name[0] != '$'
    ensures k >= 2 && name == t[k - 2].name
  {
    DollarNames();
  }

  /** Message k of an announcement, when it is the meta of a register, read back. */
  lemma MetaIsRead(c: Text.Libc, prefix: string, b: Build, k: nat, payload: string, name: string, schema: string,
                   ms: seq<Item>) returns (i: nat, withDesc: bool)
    requires PrintsNumbers(c) && Honest(b) && k < |b.t| + 2 && payload == Said(c, prefix, b)[k].payload
    requires name == NameAt(b.t, k) && name != "" && name[0] != '$'
    requires Parse(payload) == Some(ms) && Item("schema", Str(schema)) in ms
    ensures i < |b.t| && name == b.t[i].name && ms == EntryItems(c, b.t, i, withDesc)
    ensures schema == M.Hex8(Schema(b.t))
  {
    MetaIndex(b.t, k, name);
    i := k - 2;
    withDesc := MetaIsReadAt(c, prefix, b, i, payload, schema, ms);
  }

  lemma MetaIsReadAt(c: Text.Libc, prefix: string, b: Build, i: nat, payload: string, schema: string, ms: seq<Item>)
    returns (withDesc: bool)
    requires PrintsNumbers(c) && Honest(b) && i < |b.t| && payload == Said(c, prefix, b)[i + 2].payload
    requires Parse(payload) == Some(ms) && Item("schema", Str(schema)) in ms
    ensures ms == EntryItems(c, b.t, i, withDesc) && schema == M.Hex8(Schema(b.t))
  {
    withDesc := EntryIsRead(c, prefix, b, i, payload, ms);
    SchemaSaid(c, b.t, i, withDesc, ms, schema);
  }

  lemma SchemaSaid(c: Text.Libc, t: Table, i: nat, withDesc: bool, ms: seq<Item>, schema: string)
    requires i < |t| && ms == EntryItems(c, t, i, withDesc) && Item("schema", Str(schema)) in ms
    ensures schema == M.Hex8(Schema(t))
  {
    EntrySays(c, t, i, withDesc, schema, "");
  }

  lemma EntryIsRead(c: Text.Libc, prefix: string, b: Build, i: nat, payload: string, ms: seq<Item>)
    returns (withDesc: bool)
    requires PrintsNumbers(c) && Honest(b) && i < |b.t|
    requires payload == Said(c, prefix, b)[i + 2].payload && Parse(payload) == Some(ms)
    ensures ms == EntryItems(c, b.t, i, withDesc)
  {
    EntryReads(c, prefix, b, i);
    withDesc := Described(c, b.t[i], i, b.metaSize);
  }

  lemma EntryReads(c: Text.Libc, prefix: string, b: Build, i: nat)
    requires PrintsNumbers(c) && Honest(b) && i < |b.t|
    ensures Parse(Said(c, prefix, b)[i + 2].payload) == Some(EntryItems(c, b.t, i, Described(c, b.t[i], i, b.metaSize)))
  {
    SaidMeta(c, prefix, b, i);
    MetaReads(c, b.t[i], i, Schema(b.t), b.metaSize);
  }

  lemma MetaUnder(prefix: string, name: string)
    ensures UnderMeta(prefix, MetaTopic(prefix, name))
  {
    assert MetaTopic(prefix, name) == prefix + "/$meta/" + name;
  }

  lemma PromiseIsSaid(c: Text.Libc, prefix: string, broker: map<string, string>, builds: set<Build>, p: Promise)
    returns (b: Build)
    requires FromBuilds(c, prefix, builds, broker) && Promises(prefix, broker, p)
    requires forall b :: b in builds ==> Honest(b)
    ensures b in builds && p == Promise(Text.Decimal(|b.t|), M.Hex8(Schema(b.t)))
  {
    var k;
    b, k := WhoSaid(c, prefix, broker, builds, "$table");
    PromiseIsRead(c, prefix, b, k, broker[MetaTopic(prefix, "$table")]);
  }

  lemma PromiseIsRead(c: Text.Libc, prefix: string, b: Build, k: nat, payload: string)
    requires Honest(b) && k < |b.t| + 2 && payload == Said(c, prefix, b)[k].payload && "$table" == NameAt(b.t, k)
    ensures Parse(payload) == Some([NumberItem("count", |b.t|), SchemaItem(Schema(b.t))])
  {
    DollarNames();
    HeadsSaid(c, prefix, b);
    DescriptorReads(|b.t|, Schema(b.t));
  }

  /** Tables of one shape describe themselves alike. */
  lemma SameShapeSameItems(c: Text.Libc, t: Table, u: Table, i: nat, withDesc: bool)
    requires Shapes(t) == Shapes(u) && i < |t| && Schema(t) == Schema(u)
    ensures i < |u| && t[i].name == u[i].name && EntryItems(c, t, i, withDesc) == EntryItems(c, u, i, withDesc)
  {
    assert Shapes(t)[i] == ShapeOf(t[i]) && Shapes(u)[i] == ShapeOf(u[i]);
    assert |Shapes(t)| == |t| && |Shapes(u)| == |u|;
  }

  lemma SameFingerprint(c: Text.Libc, builds: set<Build>, a: Build, b: Build)
    requires Told(builds) && a in builds && b in builds && Honest(a) && Honest(b)
    requires M.Hex8(Schema(a.t)) == M.Hex8(Schema(b.t))
    ensures Schema(a.t) == Schema(b.t) && Shapes(a.t) == Shapes(b.t)
  {
    Hex8Injective(Schema(a.t), Schema(b.t));
    EncodingDecodable(a.t, b.t);
  }

  /** Everything the host keeps belongs to the one table $table is about. */
  lemma KeptDescribes(c: Text.Libc, prefix: string, broker: map<string, string>, builds: set<Build>, p: Promise,
                      b: Build, name: string, ms: seq<Item>) returns (i: nat, withDesc: bool)
    requires PrintsNumbers(c) && FromBuilds(c, prefix, builds, broker) && Kept(prefix, broker, p, name, ms)
    requires Told(builds) && forall b :: b in builds ==> Honest(b)
    requires b in builds && p.schema == M.Hex8(Schema(b.t))
    ensures i < |b.t| && name == b.t[i].name && ms == EntryItems(c, b.t, i, withDesc)
  {
    var a: Build;
    a, i, withDesc := KeptIsSaid(c, prefix, broker, builds, p, name, ms);
    SameFingerprint(c, builds, a, b);
    SameShapeSameItems(c, a.t, b.t, i, withDesc);
  }

  /** The host has kept entry i of t, with or without its description. */
  ghost predicate KeptEntry(c: Text.Libc, prefix: string, broker: map<string, string>, p: Promise, t: Table, i: nat)
    requires i < |t|
  {
    || Kept(prefix, broker, p, t[i].name, EntryItems(c, t, i, false))
    || Kept(prefix, broker, p, t[i].name, EntryItems(c, t, i, true))
  }

  /** What a host that follows the rule has of table t: nothing that is not t's, and when complete, all of
      it, each register under its own index. */
  ghost predicate Reconstructs(c: Text.Libc, prefix: string, broker: map<string, string>, p: Promise, t: Table) {
    && p == Promise(Text.Decimal(|t|), M.Hex8(Schema(t)))
    && (forall name, ms :: Kept(prefix, broker, p, name, ms) ==> Describes(c, t, name, ms))
    && (Complete(prefix, broker, p) ==> forall i: nat :: i < |t| ==> KeptEntry(c, prefix, broker, p, t, i))
  }

  lemma CoveredIsKept(c: Text.Libc, prefix: string, broker: map<string, string>, builds: set<Build>, p: Promise,
                      b: Build, i: nat)
    requires PrintsNumbers(c) && FromBuilds(c, prefix, builds, broker) && Covered(prefix, broker, p, i)
    requires Told(builds) && forall b :: b in builds ==> Honest(b)
    requires b in builds && p.schema == M.Hex8(Schema(b.t)) && i < |b.t|
    ensures KeptEntry(c, prefix, broker, p, b.t, i)
  {
    var name, ms :| Kept(prefix, broker, p, name, ms) && Item("index", Bare(Text.Decimal(i))) in ms;
    var j, withDesc := KeptDescribes(c, prefix, broker, builds, p, b, name, ms);
    EntrySays(c, b.t, j, withDesc, "", Text.Decimal(i));
    DecimalInjective(i, j);
  }

  lemma ReconstructsOne(c: Text.Libc, prefix: string, broker: map<string, string>, builds: set<Build>, p: Promise,
                        b: Build)
    requires PrintsNumbers(c) && FromBuilds(c, prefix, builds, broker)
    requires Told(builds) && forall b :: b in builds ==> Honest(b)
    requires b in builds && p == Promise(Text.Decimal(|b.t|), M.Hex8(Schema(b.t)))
    ensures Reconstructs(c, prefix, broker, p, b.t)
  {
    forall name, ms | Kept(prefix, broker, p, name, ms) ensures Describes(c, b.t, name, ms) {
      var i, withDesc := KeptDescribes(c, prefix, broker, builds, p, b, name, ms);
    }
    if Complete(prefix, broker, p) { CompleteIsAll(c, prefix, broker, builds, p, b); }
  }

  lemma CompleteIsAll(c: Text.Libc, prefix: string, broker: map<string, string>, builds: set<Build>, p: Promise,
                      b: Build)
    requires PrintsNumbers(c) && FromBuilds(c, prefix, builds, broker)
    requires Told(builds) && forall b :: b in builds ==> Honest(b)
    requires b in builds && p == Promise(Text.Decimal(|b.t|), M.Hex8(Schema(b.t))) && Complete(prefix, broker, p)
    ensures forall i: nat :: i < |b.t| ==> KeptEntry(c, prefix, broker, p, b.t, i)
  {
    var n: nat :| p.count == Text.Decimal(n) && forall i: nat :: i < n ==> Covered(prefix, broker, p, i);
    DecimalInjective(n, |b.t|);
    forall i: nat | i < |b.t|
      ensures KeptEntry(c, prefix, broker, p, b.t, i)
    {
      CoveredIsKept(c, prefix, broker, builds, p, b, i);
    }
  }

  /** Whatever builds announced themselves in whatever order and whichever of their messages arrived: once
      there is a descriptor, the host reconstructs the table of one announced build or nothing, never a mix. */
  lemma NeverMixed(c: Text.Libc, prefix: string, broker: map<string, string>, events: seq<Event>, p: Promise)
    requires PrintsNumbers(c) && FromBuilds(c, prefix, {}, broker)
    requires Told(Builds(events)) && forall b :: b in Builds(events) ==> Honest(b)
    requires Promises(prefix, Run(c, prefix, broker, events), p)
    ensures exists b :: b in Builds(events) && Reconstructs(c, prefix, Run(c, prefix, broker, events), p, b.t)
  {
    RunFrom(c, prefix, broker, events);
    var b := PromiseIsSaid(c, prefix, Run(c, prefix, broker, events), Builds(events), p);
    ReconstructsOne(c, prefix, Run(c, prefix, broker, events), Builds(events), p, b);
  }

  // ----- after a fully accepted announce -----

  /** When all of these messages are accepted, each topic ends with its message. */
  lemma {:induction false} AllDelivered(broker: map<string, string>, ms: seq<Mqtt.Message>, net: Sync.Network, k: nat)
    requires k < |ms| && forall j :: 0 <= j < |ms| ==> net(j) == Sync.Accepted
    requires forall i, j :: 0 <= i < j < |ms| ==> ms[i].topic != ms[j].topic
    ensures ms[k].topic in Mqtt.Delivered(broker, ms, net)
    ensures Mqtt.Delivered(broker, ms, net)[ms[k].topic] == ms[k].payload
  {
    var last := |ms| - 1;
    if k < last { AllDelivered(broker, ms[..last], net, k); }
  }

  lemma TopicsDiffer(c: Text.Libc, prefix: string, b: Build, i: nat, j: nat)
    requires Honest(b) && i < j < |b.t| + 2
    ensures Said(c, prefix, b)[i].topic != Said(c, prefix, b)[j].topic
  {
    DollarNames();
    TopicAt(c, prefix, b, i);
    TopicAt(c, prefix, b, j);
    MetaNames(prefix, NameAt(b.t, i), NameAt(b.t, j));
  }

  lemma AnnouncedIsThere(c: Text.Libc, prefix: string, broker: map<string, string>, b: Build, net: Sync.Network, k: nat)
    requires Honest(b) && k < |b.t| + 2 && forall j :: 0 <= j < |b.t| + 2 ==> net(j) == Sync.Accepted
    ensures var topic := MetaTopic(prefix, NameAt(b.t, k));
            var after := Mqtt.Delivered(broker, Said(c, prefix, b), net);
      topic in after && after[topic] == Said(c, prefix, b)[k].payload
  {
    forall i, j | 0 <= i < j < |b.t| + 2 ensures Said(c, prefix, b)[i].topic != Said(c, prefix, b)[j].topic {
      TopicsDiffer(c, prefix, b, i, j);
    }
    TopicAt(c, prefix, b, k);
    AllDelivered(broker, Said(c, prefix, b), net, k);
  }

  /** Its identity is then there to be read, member by member. */
  lemma IdentityNow(c: Text.Libc, prefix: string, broker: map<string, string>, b: Build, net: Sync.Network,
                    topic: string)
    requires Honest(b) && forall j :: 0 <= j < |b.t| + 2 ==> net(j) == Sync.Accepted
    requires M.CIdentity(b.id) && CText(b.built) && PlainText(b.built) && topic == MetaTopic(prefix, "$id")
    ensures var after := Mqtt.Delivered(broker, Said(c, prefix, b), net);
      topic in after && Parse(after[topic]) == Some(IdItems(b.id, b.built, |b.t|, Schema(b.t)))
  {
    AnnouncedIsThere(c, prefix, broker, b, net, 1);
    IdentitySaid(c, prefix, b);
    IdentityReads(b.id, b.built, |b.t|, Schema(b.t));
  }

  lemma IdentitySaid(c: Text.Libc, prefix: string, b: Build)
    ensures NameAt(b.t, 1) == "$id"
    ensures Said(c, prefix, b)[1].payload == M.IdText(b.id, b.built, |b.t|, Schema(b.t))
  {
    HeadsSaid(c, prefix, b);
  }

  lemma PromisedNow(c: Text.Libc, prefix: string, broker: map<string, string>, b: Build, net: Sync.Network)
    requires Honest(b) && forall j :: 0 <= j < |b.t| + 2 ==> net(j) == Sync.Accepted
    ensures Promises(prefix, Mqtt.Delivered(broker, Said(c, prefix, b), net),
                     Promise(Text.Decimal(|b.t|), M.Hex8(Schema(b.t))))
  {
    AnnouncedIsThere(c, prefix, broker, b, net, 0);
    HeadsSaid(c, prefix, b);
    DescriptorReads(|b.t|, Schema(b.t));
  }

  lemma KeptNow(c: Text.Libc, prefix: string, broker: map<string, string>, b: Build, net: Sync.Network, i: nat)
    requires PrintsNumbers(c) && Honest(b) && i < |b.t| && forall j :: 0 <= j < |b.t| + 2 ==> net(j) == Sync.Accepted
    ensures var p := Promise(Text.Decimal(|b.t|), M.Hex8(Schema(b.t)));
            var after := Mqtt.Delivered(broker, Said(c, prefix, b), net);
      && Kept(prefix, after, p, b.t[i].name, EntryItems(c, b.t, i, Described(c, b.t[i], i, b.metaSize)))
      && Covered(prefix, after, p, i)
  {
    AnnouncedIsThere(c, prefix, broker, b, net, i + 2);
    EntryReads(c, prefix, b, i);
    EntrySays(c, b.t, i, Described(c, b.t[i], i, b.metaSize), M.Hex8(Schema(b.t)), Text.Decimal(i));
    CoveredBy(prefix, Mqtt.Delivered(broker, Said(c, prefix, b), net),
              Promise(Text.Decimal(|b.t|), M.Hex8(Schema(b.t))),
              b.t[i].name, EntryItems(c, b.t, i, Described(c, b.t[i], i, b.metaSize)), i);
  }

  lemma CoveredBy(prefix: string, broker: map<string, string>, p: Promise, name: string, ms: seq<Item>, i: nat)
    requires Kept(prefix, broker, p, name, ms) && Item("index", Bare(Text.Decimal(i))) in ms
    ensures Covered(prefix, broker, p, i)
  {
  }

  /** After an announce of which every message was accepted, whatever came before: the host has all of the
      current table, and nothing else. */
  lemma FullAnnounceReconstructs(c: Text.Libc, prefix: string, broker: map<string, string>, events: seq<Event>,
                                 b: Build, net: Sync.Network)
    requires PrintsNumbers(c) && FromBuilds(c, prefix, {}, broker)
    requires Told(Builds(events + [Announce(b, net)]))
    requires forall a :: a in Builds(events + [Announce(b, net)]) ==> Honest(a)
    requires forall j :: 0 <= j < |b.t| + 2 ==> net(j) == Sync.Accepted
    ensures var after := Run(c, prefix, broker, events + [Announce(b, net)]);
            var p := Promise(Text.Decimal(|b.t|), M.Hex8(Schema(b.t)));
      Promises(prefix, after, p) && Complete(prefix, after, p) && Reconstructs(c, prefix, after, p, b.t)
  {
    var all := events + [Announce(b, net)];
    assert all[..|all| - 1] == events;
    assert Announce(b, net) in all;
    assert b in Builds(all);
    var was := Run(c, prefix, broker, events);
    RunFrom(c, prefix, broker, all);
    PromisedNow(c, prefix, was, b, net);
    forall i: nat | i < |b.t|
      ensures Covered(prefix, Run(c, prefix, broker, all), Promise(Text.Decimal(|b.t|), M.Hex8(Schema(b.t))), i)
    {
      KeptNow(c, prefix, was, b, net, i);
    }
    ReconstructsOne(c, prefix, Run(c, prefix, broker, all), Builds(all),
                    Promise(Text.Decimal(|b.t|), M.Hex8(Schema(b.t))), b);
  }
}
