/** The MQTT adapter: what binding accepts, the poll that keeps the broker's retained topics in step with
    the registers, and the announcement, which always goes out whole. */
module Mqtt {
  import opened Words
  import opened Registers
  import opened Fingerprint
  import opened MqttTopics
  import Bitmap
  import Bitwise
  import Core
  import M = MqttMeta
  import Sync = MqttSync
  import Text

  /** What regmqtt_init accepts: lawful prefix and names, every topic within its buffer, and every entry's
      metadata without description within its own, less the trailer's reserve. */
  predicate Accepts(c: Text.Libc, t: Table, prefix: string, topicSize: nat, metaSize: nat) {
    && PrefixOk(prefix) && |prefix| + 14 <= topicSize
    && AllOk(c, t, |t|, prefix, topicSize, metaSize)
  }

  predicate AllOk(c: Text.Libc, t: Table, n: nat, prefix: string, topicSize: nat, metaSize: nat)
    requires n <= |t|
  {
    forall i :: 0 <= i < n ==> EntryOk(c, t, i, prefix, topicSize, metaSize)
  }

  lemma AllOkNext(c: Text.Libc, t: Table, n: nat, prefix: string, topicSize: nat, metaSize: nat)
    requires n < |t|
    ensures AllOk(c, t, n + 1, prefix, topicSize, metaSize)
       <==> AllOk(c, t, n, prefix, topicSize, metaSize) && EntryOk(c, t, n, prefix, topicSize, metaSize)
    ensures AllOk(c, t, |t|, prefix, topicSize, metaSize) ==> AllOk(c, t, n + 1, prefix, topicSize, metaSize)
  {
  }

  predicate EntryOk(c: Text.Libc, t: Table, i: nat, prefix: string, topicSize: nat, metaSize: nat)
    requires i < |t|
  {
    && NameOk(t[i].name) && EntryFits(c, t[i], i, prefix, topicSize, metaSize)
    && forall o :: 0 <= o < i ==> t[o].name != t[i].name
  }

  predicate EntryFits(c: Text.Libc, e: Entry, index: nat, prefix: string, topicSize: nat, metaSize: nat) {
    |prefix| + 7 + |e.name| + 1 <= topicSize && |M.MetaText(c, e, index)| < metaSize - M.TRAILER_LEN
  }

  lemma AcceptsNames(c: Text.Libc, t: Table, prefix: string, topicSize: nat, metaSize: nat)
    ensures Accepts(c, t, prefix, topicSize, metaSize) <==>
            && PrefixOk(prefix) && |prefix| + 14 <= topicSize && NamesOk(t)
            && forall i :: 0 <= i < |t| ==> EntryFits(c, t[i], i, prefix, topicSize, metaSize)
  {
    var each := forall i :: 0 <= i < |t| ==> EntryOk(c, t, i, prefix, topicSize, metaSize);
    if NamesOk(t) && forall i :: 0 <= i < |t| ==> EntryFits(c, t[i], i, prefix, topicSize, metaSize) {
      forall i | 0 <= i < |t| ensures EntryOk(c, t, i, prefix, topicSize, metaSize) {
      }
    }
    if each {
      forall i | 0 <= i < |t| ensures NameOk(t[i].name) && EntryFits(c, t[i], i, prefix, topicSize, metaSize) {
        assert EntryOk(c, t, i, prefix, topicSize, metaSize);
      }
      forall i, j | 0 <= i < j < |t| ensures t[i].name != t[j].name {
        assert EntryOk(c, t, j, prefix, topicSize, metaSize);
      }
    }
  }

  /** These are exactly the tables all of whose topics fit their buffer, and all of whose metadata, description
      aside, fit theirs with the trailer. */
  lemma AcceptsExactly(c: Text.Libc, t: Table, prefix: string, topicSize: nat, metaSize: nat)
    ensures Accepts(c, t, prefix, topicSize, metaSize) <==>
            && PrefixOk(prefix) && NamesOk(t) && |TopicText(t, prefix, Descriptor)| < topicSize
            && forall i :: 0 <= i < |t| ==>
                 && |TopicText(t, prefix, Meta(i))| < topicSize
                 && |M.MetaText(c, t[i], i) + M.Trailer(Schema(t))| < metaSize
  {
    AcceptsNames(c, t, prefix, topicSize, metaSize);
    forall i | 0 <= i < |t|
      ensures EntryFits(c, t[i], i, prefix, topicSize, metaSize) <==>
              && |TopicText(t, prefix, Meta(i))| < topicSize
              && |M.MetaText(c, t[i], i) + M.Trailer(Schema(t))| < metaSize
    {
    }
  }

  predicate IdentityFits(t: Table, id: Option<M.Identity>, built: string, metaSize: nat) {
    |M.IdText(Strings(id), built, |t|, Schema(t))| < metaSize
  }

  /** The strings behind the identity pointer; NULL has none. */
  function Strings(id: Option<M.Identity>): M.Identity {
    if id.Some? then id.value else M.NO_IDENTITY
  }

  /** What snprintf leaves in a buffer of this size. */
  function Printed(text: string, size: nat): string
    requires size > 0
  {
    if |text| < size then text else text[..size - 1]
  }

  lemma StateTopicFits(c: Text.Libc, t: Table, i: nat, prefix: string, topicSize: nat, metaSize: nat)
    requires i < |t| && topicSize > 0 && Accepts(c, t, prefix, topicSize, metaSize)
    ensures Printed(StateTopic(prefix, t[i].name), topicSize) == StateTopic(prefix, t[i].name)
  {
    assert EntryOk(c, t, i, prefix, topicSize, metaSize);
  }

  /** How many of these messages the client accepted. */
  function AcceptedOf(net: Sync.Network, tried: seq<nat>): nat {
    if tried == [] then 0
    else AcceptedOf(net, tried[..|tried| - 1]) + if net(tried[|tried| - 1]) == Sync.Accepted then 1 else 0
  }

  lemma AcceptedOfNext(net: Sync.Network, tried: seq<nat>, k: nat)
    ensures AcceptedOf(net, tried + [k]) == AcceptedOf(net, tried) + if net(k) == Sync.Accepted then 1 else 0
  {
    assert (tried + [k])[..|tried|] == tried;
  }

  /** The same for messages 0 to n - 1. */
  function AcceptedFirst(net: Sync.Network, n: nat): nat {
    if n == 0 then 0 else AcceptedFirst(net, n - 1) + if net(n - 1) == Sync.Accepted then 1 else 0
  }

  /** All were accepted exactly when as many were as there are. */
  lemma {:induction false} AllAccepted(net: Sync.Network, n: nat)
    ensures AcceptedFirst(net, n) <= n
    ensures AcceptedFirst(net, n) == n <==> forall j :: 0 <= j < n ==> net(j) == Sync.Accepted
    ensures AcceptedFirst(net, n) == 0 <==> forall j :: 0 <= j < n ==> net(j) != Sync.Accepted
  {
    if n > 0 { AllAccepted(net, n - 1); }
  }

  function Noted(tried: seq<nat>, handed: bool, i: nat): seq<nat> {
    if handed then tried + [i] else tried
  }

  /** What the poll amounts to, when entries below i are done and these messages were handed over. */
  ghost function Rest(t: Table, h: Hooks, c: Text.Libc, prefix: string, net: Sync.Network, s: Sync.Link, i: nat,
                      tried: seq<nat>): Sync.Polled
    requires i <= |t| && Sync.Sized(t, s)
  {
    var rest := Sync.PollFrom(t, h, c, prefix, net, s, i);
    Sync.Polled(rest.s, tried + rest.tried)
  }

  lemma RestStart(t: Table, h: Hooks, c: Text.Libc, prefix: string, net: Sync.Network, s: Sync.Link)
    requires Sync.Sized(t, s)
    ensures Rest(t, h, c, prefix, net, s, 0, []) == Sync.PollFrom(t, h, c, prefix, net, s, 0)
  {
    var tried := Sync.PollFrom(t, h, c, prefix, net, s, 0).tried;
    assert [] + tried == tried;
  }

  lemma RestEnd(t: Table, h: Hooks, c: Text.Libc, prefix: string, net: Sync.Network, s: Sync.Link, tried: seq<nat>)
    requires Sync.Sized(t, s)
    ensures Rest(t, h, c, prefix, net, s, |t|, tried) == Sync.Polled(s, tried)
  {
    assert tried + [] == tried;
  }

  lemma {:induction false} RestStep(t: Table, h: Hooks, c: Text.Libc, prefix: string, net: Sync.Network, s: Sync.Link,
                                    i: nat, tried: seq<nat>)
    requires i < |t| && Sync.Sized(t, s)
    ensures var turn := Sync.Visit(t, h, c, prefix, net, s, i);
      && Rest(t, h, c, prefix, net, turn.s, i + 1, Noted(tried, turn.tried, i))
         == Rest(t, h, c, prefix, net, s, i, tried)
      && AcceptedOf(net, Noted(tried, turn.tried, i))
         == AcceptedOf(net, tried) + if turn.tried && net(i) == Sync.Accepted then 1 else 0
  {
    var turn := Sync.Visit(t, h, c, prefix, net, s, i);
    Tally(net, tried, turn.tried, i, Sync.PollFrom(t, h, c, prefix, net, turn.s, i + 1).tried);
  }

  lemma Tally(net: Sync.Network, tried: seq<nat>, handed: bool, i: nat, rest: seq<nat>)
    ensures Noted(tried, handed, i) + rest == tried + ((if handed then [i] else []) + rest)
    ensures AcceptedOf(net, Noted(tried, handed, i))
         == AcceptedOf(net, tried) + if handed && net(i) == Sync.Accepted then 1 else 0
  {
    if handed { AcceptedOfNext(net, tried, i); } else { assert [] + rest == rest; }
  }

  // ----- the announcement -----

  datatype Message = Message(topic: string, payload: string)

  /** The descriptor, the identity, then one meta per entry in table order. */
  function Announcement(c: Text.Libc, t: Table, prefix: string, id: M.Identity, built: string,
                        metaSize: nat): (ms: seq<Message>)
    ensures |ms| == |t| + 2
  {
    [DescriptorMessage(t, prefix), IdentityMessage(t, prefix, id, built)]
    + seq(|t|, i requires 0 <= i < |t| => MetaMessage(c, t, prefix, i, metaSize))
  }

  function DescriptorMessage(t: Table, prefix: string): Message {
    Message(TopicText(t, prefix, Descriptor), M.DescriptorText(|t|, Schema(t)))
  }

  function IdentityMessage(t: Table, prefix: string, id: M.Identity, built: string): Message {
    Message(TopicText(t, prefix, Identity), M.IdText(id, built, |t|, Schema(t)))
  }

  /** One meta per entry from message 2 on. */
  ghost predicate HoldsMetas(c: Text.Libc, t: Table, prefix: string, metaSize: nat, ms: seq<Message>) {
    |ms| == |t| + 2 && forall i :: 0 <= i < |t| ==> ms[i + 2] == MetaMessage(c, t, prefix, i, metaSize)
  }

  lemma HeadOfAnnouncement(c: Text.Libc, t: Table, prefix: string, id: M.Identity, built: string, metaSize: nat)
    ensures var ms := Announcement(c, t, prefix, id, built, metaSize);
      ms[0] == DescriptorMessage(t, prefix) && ms[1] == IdentityMessage(t, prefix, id, built)
  {
  }

  lemma MetasOfAnnouncement(c: Text.Libc, t: Table, prefix: string, id: M.Identity, built: string, metaSize: nat)
    ensures HoldsMetas(c, t, prefix, metaSize, Announcement(c, t, prefix, id, built, metaSize))
  {
  }

  function MetaMessage(c: Text.Libc, t: Table, prefix: string, i: nat, metaSize: nat): Message
    requires i < |t|
  {
    Message(TopicText(t, prefix, Meta(i)), M.MetaPayload(c, t[i], i, Schema(t), metaSize))
  }

  /** The broker once message k of these met fate net(k). */
  function Delivered(broker: map<string, string>, ms: seq<Message>, net: Sync.Network): map<string, string> {
    if ms == [] then broker
    else Deliver(Delivered(broker, ms[..|ms| - 1], net), ms[|ms| - 1], net(|ms| - 1))
  }

  function Deliver(broker: map<string, string>, m: Message, fate: Sync.Outcome): map<string, string> {
    if fate == Sync.RefusedAndLost then broker else broker[m.topic := m.payload]
  }

  /** One more of these messages handed over. */
  lemma DeliveredNext(start: map<string, string>, broker: map<string, string>, before: seq<Message>, log: seq<Message>,
                      ms: seq<Message>, k: nat, net: Sync.Network)
    requires k < |ms| && log == before + ms[..k] && broker == Delivered(start, ms[..k], net)
    ensures log + [ms[k]] == before + ms[..k + 1]
    ensures Deliver(broker, ms[k], net(k)) == Delivered(start, ms[..k + 1], net)
  {
    assert ms[..k + 1][..k] == ms[..k];
    assert ms[..k + 1] == ms[..k] + [ms[k]];
  }

  lemma DescriptorFits(count: nat, fp: uint32)
    requires count <= 0xFFFF
    ensures 0 < |M.DescriptorText(count, fp)| < 96
  {
    Text.DecimalLength(count, 5);
  }

  /** A NULL identity's $id takes at most 84 bytes, so it always fits. */
  lemma NoIdentityFits(t: Table, built: string, metaSize: nat)
    requires |t| <= 0xFFFF && |built| == 20 && metaSize >= 96
    ensures |M.IdText(M.NO_IDENTITY, built, |t|, Schema(t))| <= 84 && IdentityFits(t, None, built, metaSize)
  {
    Text.DecimalLength(|t|, 5);
  }

  predicate Sendable(m: Message, topicSize: nat, metaSize: nat) {
    |m.topic| < topicSize && 0 < |m.payload| < metaSize
  }

  /** What SetIdentity accepts goes out. */
  lemma HeadSendable(c: Text.Libc, t: Table, prefix: string, topicSize: nat, id: Option<M.Identity>, built: string,
                     metaSize: nat)
    requires |prefix| + 14 <= topicSize && IdentityFits(t, id, built, metaSize) && |t| <= 0xFFFF && metaSize >= 96
    ensures Sendable(DescriptorMessage(t, prefix), topicSize, metaSize)
    ensures Sendable(IdentityMessage(t, prefix, Strings(id), built), topicSize, metaSize)
  {
    DescriptorFits(|t|, Schema(t));
  }

  /** For every table Init accepts: every meta is the whole body, the description in full or not at all, and
      the trailer, and fits its buffers. */
  lemma MetaWhole(c: Text.Libc, t: Table, i: nat, prefix: string, topicSize: nat, metaSize: nat)
    requires i < |t| && Accepts(c, t, prefix, topicSize, metaSize)
    ensures var m := MetaMessage(c, t, prefix, i, metaSize);
      Sendable(m, topicSize, metaSize) && WholeMeta(c, t[i], i, Schema(t), m.payload)
  {
    assert EntryOk(c, t, i, prefix, topicSize, metaSize);
    var body := M.MetaText(c, t[i], i);
    assert body + "" == body;
  }

  ghost predicate WholeMeta(c: Text.Libc, e: Entry, index: nat, fp: uint32, payload: string) {
    || payload == M.MetaText(c, e, index) + M.Trailer(fp)
    || (e.description.Some? && payload == M.MetaText(c, e, index) + M.DescText(e.description.value) + M.Trailer(fp))
  }

  // ----- regmqtt_init -----

  /** The checks on one entry, the search for an earlier one of the same name included. */
  method CheckEntry(c: Text.Libc, t: Table, i: nat, prefix: string, topicSize: nat, metaSize: nat) returns (ok: bool)
    requires i < |t| && CTable(t) && metaSize > M.TRAILER_LEN
    ensures ok <==> EntryOk(c, t, i, prefix, topicSize, metaSize)
  {
    var e := t[i];
    if |e.name| == 0 || |e.name| > NAME_MAX { return false; }
    if '/' in e.name || '+' in e.name || '#' in e.name || e.name[0] == '$' { return false; }
    if |prefix| + 7 + |e.name| + 1 > topicSize { return false; }
    for o := 0 to i
      invariant forall k :: 0 <= k < o ==> t[k].name != e.name
    {
      if t[o].name == e.name { return false; }
    }
    ok := M.MetaFits(c, e, i, metaSize);
  }

  method CheckTable(c: Text.Libc, t: Table, prefix: string, topicSize: nat, metaSize: nat) returns (ok: bool)
    requires CTable(t) && metaSize > M.TRAILER_LEN
    ensures ok <==> Accepts(c, t, prefix, topicSize, metaSize)
  {
    if prefix == "" || '+' in prefix || '#' in prefix { return false; }
    if |prefix| + 14 > topicSize { return false; }
    ok := true;
    var i := 0;
    while ok && i < |t|
      invariant i <= |t|
      invariant if ok then AllOk(c, t, i, prefix, topicSize, metaSize)
                else !AllOk(c, t, |t|, prefix, topicSize, metaSize)
    {
      AllOkNext(c, t, i, prefix, topicSize, metaSize);
      ok := CheckEntry(c, t, i, prefix, topicSize, metaSize);
      i := i + 1;
    }
  }

  // ----- the adapter -----

  class RegMqtt {
    /** REGTABLE_MAX_ENTRIES, REGTABLE_MQTT_TOPIC_SIZE, REGTABLE_MQTT_META_SIZE, and the compiler's
        __DATE__ " " __TIME__: fixed when the program is built. */
    const maxEntries: nat
    const topicSize: nat
    const metaSize: nat
    const built: string
    const libc: Text.Libc

    var table: Core.RegTable?
    var prefix: string
    var identity: Option<M.Identity>
    /** uint32_t shadow[MAX], synced[(MAX + 31) / 32]: part of the struct itself. */
    var shadow: seq<uint32>
    var synced: seq<uint32>

    /** What publish() hands on to: the broker's retained messages. */
    ghost var broker: map<string, string>
    /** Every message handed to publish() so far. */
    ghost var handed: seq<Message>

    ghost predicate Valid()
      reads `shadow, `synced
    {
      && 1 <= maxEntries <= 0xFFFF && topicSize > 0 && metaSize >= 96 && |built| == 20
      && |shadow| == maxEntries && |synced| == (maxEntries + 31) / 32
    }

    /** Bound by a successful Init to a table that is still bound. */
    ghost predicate Ready()
      reads `table, `prefix, `shadow, `synced, table
    {
      && Valid() && table != null && table.Bound() && table.maxEntries == maxEntries
      && Accepts(libc, table.entries, prefix, topicSize, metaSize)
    }

    /** Names and descriptions are C strings, and the identity set, if any, has been checked against this
        very table. */
    ghost predicate Identified()
      requires table != null
      reads `table, `identity, table`entries
    {
      CTable(table.entries) && M.CIdentity(Strings(identity)) && IdentityFits(table.entries, identity, built, metaSize)
    }

    ghost function Link(): Sync.Link
      requires Ready()
      reads this, table
    {
      Sync.Link(table.State(), shadow[..table.count], Bitmap.Members(synced, table.count), broker)
    }

    constructor (maxEntries: nat, topicSize: nat, metaSize: nat, built: string, libc: Text.Libc)
      requires 1 <= maxEntries <= 0xFFFF && topicSize > 0 && metaSize >= 96 && |built| == 20
      ensures Valid() && table == null
      ensures this.maxEntries == maxEntries && this.topicSize == topicSize && this.metaSize == metaSize
    {
      this.maxEntries, this.topicSize, this.metaSize := maxEntries, topicSize, metaSize;
      this.built, this.libc := built, libc;
      table, prefix, identity, broker, handed := null, "", None, map[], [];
      shadow, synced := seq(maxEntries, _ => 0), seq((maxEntries + 31) / 32, _ => 0);
    }

    /** regmqtt_init: exactly what Accepts says; nothing is synced yet. */
    method Init(t: Core.RegTable, p: string) returns (r: RegResult)
      requires Valid() && t.Bound() && t.maxEntries == maxEntries && CTable(t.entries)
      modifies this`table, this`prefix, this`identity, this`synced
      ensures r == if Accepts(libc, t.entries, p, topicSize, metaSize) then Ok else TableError
      ensures r == Ok ==>
                Ready() && Identified() && table == t && prefix == p && identity == None && Link().synced == {}
      ensures r != Ok ==> unchanged(this)
    {
      var fine := CheckTable(libc, t.entries, p, topicSize, metaSize);
      if !fine { return TableError; }
      table, prefix, identity := t, p, None;
      synced := seq(|synced|, _ => 0);
      Bitmap.EmptyMembers(synced, t.count);
      NoIdentityFits(t.entries, built, metaSize);
      return Ok;
    }

    /** regmqtt_set_identity: exactly the identities whose $id fits; the others change nothing. */
    method SetIdentity(id: Option<M.Identity>) returns (r: RegResult)
      requires Valid() && (table != null ==> Ready() && CTable(table.entries)) && M.CIdentity(Strings(id))
      modifies this`identity
      ensures r == if table != null && IdentityFits(table.entries, id, built, metaSize) then Ok else TableError
      ensures identity == if r == Ok then id else old(identity)
      ensures table != null ==> Ready() && (r == Ok ==> Identified())
    {
      if table == null { return TableError; }
      var scratch := new char[metaSize];
      var fp := TableSchema(table.entries);
      var payload := M.BuildIdentity(scratch, Strings(id), built, table.count, fp);
      if payload.None? { return TableError; }
      identity := id;
      return Ok;
    }

    /** publish(): whether the client took the message; what reached the broker is the network's business. */
    method Publish(topic: string, payload: string, fate: Sync.Outcome) returns (ok: bool)
      modifies this`broker, this`handed
      ensures ok <==> fate == Sync.Accepted
      ensures broker == Deliver(old(broker), Message(topic, payload), fate)
      ensures handed == old(handed) + [Message(topic, payload)]
    {
      handed := handed + [Message(topic, payload)];
      broker := Deliver(broker, Message(topic, payload), fate);
      return fate == Sync.Accepted;
    }

    method SetSynced(i: nat, on: bool)
      requires Ready() && i < table.count
      modifies this`synced
      ensures Ready()
      ensures Link() == old(Link()).(synced := if on then old(Link()).synced + {i} else old(Link()).synced - {i})
    {
      if on {
        Bitmap.SetMembers(synced, i, table.count);
        synced := synced[i / 32 := Bitwise.WordWith(synced[i / 32], i % 32)];
      } else {
        Bitmap.ClearMembers(synced, i, table.count);
        synced := synced[i / 32 := Bitwise.WordWithout(synced[i / 32], i % 32)];
      }
    }

    /** Entry i's message, and the note of whether it was accepted. */
    method Offer(i: nat, raw: uint32, fate: Sync.Outcome)
      requires Ready() && i < table.count
      modifies this`shadow, this`synced, this`broker, this`handed
      ensures Ready() && Link() == Sync.Offer(table.entries, libc, prefix, fate, old(Link()), i, raw)
    {
      var e := table.entries[i];
      StateTopicFits(libc, table.entries, i, prefix, topicSize, metaSize);
      var topic := Printed(StateTopic(prefix, e.name), topicSize);
      var payload := Printed(Text.RawText(libc, e.rtype, raw), 32);
      var ok := Publish(topic, payload, fate);
      if !ok {
        SetSynced(i, false);
        return;
      }
      shadow := shadow[i := raw];
      SetSynced(i, true);
    }

    /** The body of regmqtt_poll's loop. */
    method PollEntry(h: Hooks, net: Sync.Network, i: nat) returns (tried: bool)
      requires Ready() && i < table.count
      modifies this`shadow, this`synced, this`broker, this`handed, table`cells
      ensures Ready()
      ensures Sync.Turn(Link(), tried) == Sync.Visit(table.entries, h, libc, prefix, net, old(Link()), i)
    {
      var raw := table.GetRaw(h, i);
      Bitwise.AndMask(synced[i / 32], i % 32);
      if Bitwise.And(synced[i / 32], Bitwise.Shl1(i % 32)) != 0 && raw == shadow[i] { return false; }
      Offer(i, raw, net(i));
      return true;
    }

    /** One turn of the loop, with what has been handed over so far. */
    method PollNext(h: Hooks, net: Sync.Network, i: nat, ghost tried: seq<nat>)
      returns (accepted: bool, ghost now: seq<nat>)
      requires Ready() && i < table.count
      modifies this`shadow, this`synced, this`broker, this`handed, table`cells
      ensures Ready()
      ensures Rest(table.entries, h, libc, prefix, net, Link(), i + 1, now)
           == Rest(table.entries, h, libc, prefix, net, old(Link()), i, tried)
      ensures AcceptedOf(net, now) == AcceptedOf(net, tried) + if accepted then 1 else 0
    {
      ghost var s := Link();
      var sent := PollEntry(h, net, i);
      RestStep(table.entries, h, libc, prefix, net, s, i, tried);
      return sent && net(i) == Sync.Accepted, Noted(tried, sent, i);
    }

    /** regmqtt_poll. */
    method Poll(h: Hooks, net: Sync.Network) returns (sent: nat, ghost tried: seq<nat>)
      requires Ready()
      modifies this`shadow, this`synced, this`broker, this`handed, table`cells
      ensures Ready()
      ensures Sync.Polled(Link(), tried) == Sync.PollFrom(table.entries, h, libc, prefix, net, old(Link()), 0)
      ensures sent == AcceptedOf(net, tried)
    {
      sent, tried := 0, [];
      ghost var t, p, whole := table.entries, prefix, Sync.PollFrom(table.entries, h, libc, prefix, net, Link(), 0);
      RestStart(t, h, libc, p, net, Link());
      var i := 0;
      while i < table.count
        invariant i <= table.count && Ready() && table.entries == t && prefix == p && sent == AcceptedOf(net, tried)
        invariant Rest(t, h, libc, p, net, Link(), i, tried) == whole
      {
        var accepted;
        accepted, tried := PollNext(h, net, i, tried);
        if accepted { sent := sent + 1; }
        i := i + 1;
      }
      RestEnd(t, h, libc, p, net, Link(), tried);
    }

    /** regmqtt_publish_all. */
    method PublishAll(h: Hooks, net: Sync.Network) returns (sent: nat, ghost tried: seq<nat>)
      requires Ready()
      modifies this`shadow, this`synced, this`broker, this`handed, table`cells
      ensures Ready()
      ensures Sync.Polled(Link(), tried) == Sync.PublishAll(table.entries, h, libc, prefix, net, old(Link()))
      ensures sent == AcceptedOf(net, tried)
    {
      synced := seq(|synced|, _ => 0);
      Bitmap.EmptyMembers(synced, table.count);
      sent, tried := Poll(h, net);
    }

    /** regmqtt_announce. Whatever the network does, the messages handed over are those of Announcement:
        none skipped, none cut short. */
    method Announce(net: Sync.Network) returns (sent: nat)
      requires Valid() && (table != null ==> Ready() && Identified())
      modifies this`broker, this`handed
      ensures table == null ==> sent == 0 && unchanged(this)
      ensures table != null ==>
                var ms := Announcement(libc, table.entries, prefix, Strings(identity), built, metaSize);
                && Ready() && handed == old(handed) + ms
                && broker == Delivered(old(broker), ms, net) && sent == AcceptedFirst(net, |ms|)
    {
      if table == null { return 0; }
      ghost var ms := Announcement(libc, table.entries, prefix, Strings(identity), built, metaSize);
      sent := AnnounceBound(net, ms);
    }

    /** The same on a bound handle. */
    method AnnounceBound(net: Sync.Network, ghost ms: seq<Message>) returns (sent: nat)
      requires Ready() && Identified()
      requires ms == Announcement(libc, table.entries, prefix, Strings(identity), built, metaSize)
      modifies this`broker, this`handed
      ensures Ready() && handed == old(handed) + ms
      ensures broker == Delivered(old(broker), ms, net) && sent == AcceptedFirst(net, |ms|)
    {
      var fp := TableSchema(table.entries);
      var buf := new char[metaSize];
      sent := AnnounceIn(net, fp, buf, ms);
    }

    /** The same, with the scratch buffer. */
    method AnnounceIn(net: Sync.Network, fp: uint32, buf: array<char>, ghost ms: seq<Message>) returns (sent: nat)
      requires Ready() && Identified() && fp == Schema(table.entries) && buf.Length == metaSize
      requires ms == Announcement(libc, table.entries, prefix, Strings(identity), built, metaSize)
      modifies this`broker, this`handed, buf
      ensures Ready() && handed == old(handed) + ms
      ensures broker == Delivered(old(broker), ms, net) && sent == AcceptedFirst(net, |ms|)
    {
      MetasOfAnnouncement(libc, table.entries, prefix, Strings(identity), built, metaSize);
      sent := AnnounceHead(net, fp, buf, ms);
      sent := AnnounceMetas(net, fp, buf, sent, ms, old(broker), old(handed));
      assert ms[..|ms|] == ms;
    }

    /** The first k of these messages went out, on top of what was there before. */
    ghost predicate HandedOver(net: Sync.Network, ms: seq<Message>, k: nat, start: map<string, string>,
                               before: seq<Message>, sent: nat)
      reads `broker, `handed
    {
      && k <= |ms| && handed == before + ms[..k] && broker == Delivered(start, ms[..k], net)
      && sent == AcceptedFirst(net, k)
    }

    /** The metas, after the two messages in front of them. */
    method AnnounceMetas(net: Sync.Network, fp: uint32, buf: array<char>, two: nat, ghost ms: seq<Message>,
                         ghost start: map<string, string>, ghost before: seq<Message>) returns (sent: nat)
      requires Ready() && CTable(table.entries) && fp == Schema(table.entries) && buf.Length == metaSize
      requires HoldsMetas(libc, table.entries, prefix, metaSize, ms) && HandedOver(net, ms, 2, start, before, two)
      modifies this`broker, this`handed, buf
      ensures Ready() && HandedOver(net, ms, |ms|, start, before, sent)
    {
      sent := two;
      var i := 0;
      ghost var t, p := table.entries, prefix;
      while i < table.count
        invariant i <= table.count && Ready() && table.entries == t && prefix == p
        invariant HandedOver(net, ms, i + 2, start, before, sent)
      {
        sent := AnnounceNext(net, fp, i, buf, ms, start, before, sent);
        i := i + 1;
      }
    }

    /** One turn of that loop. */
    method AnnounceNext(net: Sync.Network, fp: uint32, i: nat, buf: array<char>, ghost ms: seq<Message>,
                        ghost start: map<string, string>, ghost before: seq<Message>, sent: nat) returns (now: nat)
      requires Ready() && CTable(table.entries) && fp == Schema(table.entries) && i < table.count
      requires buf.Length == metaSize && HoldsMetas(libc, table.entries, prefix, metaSize, ms)
      requires HandedOver(net, ms, i + 2, start, before, sent)
      modifies this`broker, this`handed, buf
      ensures Ready() && HandedOver(net, ms, i + 3, start, before, now)
    {
      DeliveredNext(start, broker, before, handed, ms, i + 2, net);
      var ok := AnnounceEntry(net, fp, i, buf);
      now := if ok then sent + 1 else sent;
    }

    method AnnounceDescriptor(net: Sync.Network, fp: uint32) returns (ok: bool)
      requires Ready() && CTable(table.entries) && fp == Schema(table.entries)
      modifies this`broker, this`handed
      ensures Ready() && (ok <==> net(0) == Sync.Accepted)
      ensures var m := DescriptorMessage(table.entries, prefix);
        handed == old(handed) + [m] && broker == Deliver(old(broker), m, net(0))
    {
      var topic := TopicText(table.entries, prefix, Descriptor);
      var text := M.DescriptorText(table.count, fp);
      DescriptorFits(table.count, fp);
      if 0 < |topic| < topicSize && 0 < |text| < metaSize { ok := Publish(topic, text, net(0)); }
    }

    method AnnounceIdentity(net: Sync.Network, fp: uint32, buf: array<char>) returns (ok: bool)
      requires Ready() && Identified() && fp == Schema(table.entries) && buf.Length == metaSize
      modifies this`broker, this`handed, buf
      ensures Ready() && (ok <==> net(1) == Sync.Accepted)
      ensures var m := IdentityMessage(table.entries, prefix, Strings(identity), built);
        handed == old(handed) + [m] && broker == Deliver(old(broker), m, net(1))
    {
      var topic := TopicText(table.entries, prefix, Identity);
      var payload := M.BuildIdentity(buf, Strings(identity), built, table.count, fp);
      if 0 < |topic| < topicSize && payload.Some? { ok := Publish(topic, payload.value, net(1)); }
    }

    /** The descriptor, then the identity. */
    method AnnounceHead(net: Sync.Network, fp: uint32, buf: array<char>, ghost ms: seq<Message>) returns (sent: nat)
      requires Ready() && Identified() && fp == Schema(table.entries) && buf.Length == metaSize
      requires ms == Announcement(libc, table.entries, prefix, Strings(identity), built, metaSize)
      modifies this`broker, this`handed, buf
      ensures Ready() && HandedOver(net, ms, 2, old(broker), old(handed), sent)
    {
      HeadOfAnnouncement(libc, table.entries, prefix, Strings(identity), built, metaSize);
      DeliveredNext(broker, broker, handed, handed, ms, 0, net);
      var first := AnnounceDescriptor(net, fp);
      DeliveredNext(old(broker), broker, old(handed), handed, ms, 1, net);
      var second := AnnounceIdentity(net, fp, buf);
      sent := (if first then 1 else 0) + if second then 1 else 0;
    }

    /** One entry's meta. */
    method AnnounceEntry(net: Sync.Network, fp: uint32, i: nat, buf: array<char>) returns (ok: bool)
      requires Ready() && CTable(table.entries) && fp == Schema(table.entries) && i < table.count
      requires buf.Length == metaSize
      modifies this`broker, this`handed, buf
      ensures Ready() && (ok <==> net(i + 2) == Sync.Accepted)
      ensures var m := MetaMessage(libc, table.entries, prefix, i, metaSize);
        handed == old(handed) + [m] && broker == Deliver(old(broker), m, net(i + 2))
    {
      var e := table.entries[i];
      assert EntryOk(libc, table.entries, i, prefix, topicSize, metaSize);
      var payload := M.BuildMeta(buf, libc, e, i, fp);
      var topic := TopicText(table.entries, prefix, Meta(i));
      if 0 < |topic| < topicSize { ok := Publish(topic, payload, net(i + 2)); }
    }
  }
}
