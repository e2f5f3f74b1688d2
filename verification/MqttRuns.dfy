/** Everything that reaches the broker over a run: polls, full resends and announcements, between changes of
    the registers. */
module MqttRuns {
  import opened Words
  import opened Registers
  import opened MqttTopics
  import opened MqttSync
  import M = MqttMeta
  import Mqtt
  import Text

  /** What happens around the adapter: registers change in any way at all, polls, full resends,
      announcements under any identity. */
  datatype Event =
    | Change(cells: seq<uint32>, dirty: set<nat>)
    | Poll(h: Hooks, net: Network)
    | Resend(h: Hooks, net: Network)
    | Announce(id: M.Identity, built: string, metaSize: nat, net: Network)

  function After(t: Table, c: Text.Libc, prefix: string, s: Link, e: Event): (r: Link)
    requires Sized(t, s)
    ensures Sized(t, r)
  {
    match e
    case Change(cells, dirty) => if |cells| == |t| then s.(d := Device(cells, dirty)) else s
    case Poll(h, net) => PollFrom(t, h, c, prefix, net, s, 0).s
    case Resend(h, net) => PublishAll(t, h, c, prefix, net, s).s
    case Announce(id, built, metaSize, net) =>
      s.(broker := Mqtt.Delivered(s.broker, Mqtt.Announcement(c, t, prefix, id, built, metaSize), net))
  }

  function Run(t: Table, c: Text.Libc, prefix: string, s: Link, events: seq<Event>): (r: Link)
    requires Sized(t, s)
    ensures Sized(t, r)
    decreases |events|
  {
    if events == [] then s else Run(t, c, prefix, After(t, c, prefix, s, events[0]), events[1..])
  }

  // ----- an announcement leaves the state topics alone -----

  /** Messages for other topics do not touch what this topic holds. */
  lemma {:induction false} DeliveredElsewhere(broker: map<string, string>, ms: seq<Mqtt.Message>, net: Network,
                                              topic: string)
    requires forall k :: 0 <= k < |ms| ==> ms[k].topic != topic
    ensures var r := Mqtt.Delivered(broker, ms, net);
      (topic in r <==> topic in broker) && (topic in broker ==> r[topic] == broker[topic])
  {
    if ms != [] { DeliveredElsewhere(broker, ms[..|ms| - 1], net, topic); }
  }

  /** The topic of each message of an announcement. */
  function AnnouncedTopic(t: Table, k: nat): (topic: Topic)
    requires k < |t| + 2
    ensures Known(t, topic)
  {
    if k == 0 then Descriptor else if k == 1 then Identity else Meta(k - 2)
  }

  lemma AnnouncedAt(c: Text.Libc, t: Table, prefix: string, id: M.Identity, built: string, metaSize: nat, k: nat)
    requires k < |t| + 2
    ensures Mqtt.Announcement(c, t, prefix, id, built, metaSize)[k].topic == TopicText(t, prefix, AnnouncedTopic(t, k))
  {
  }

  lemma NotAnnounced(c: Text.Libc, t: Table, prefix: string, id: M.Identity, built: string, metaSize: nat, i: nat)
    requires NamesOk(t) && i < |t|
    ensures var ms := Mqtt.Announcement(c, t, prefix, id, built, metaSize);
      forall k :: 0 <= k < |ms| ==> ms[k].topic != StateTopic(prefix, t[i].name)
  {
    forall k | 0 <= k < |t| + 2
      ensures Mqtt.Announcement(c, t, prefix, id, built, metaSize)[k].topic != StateTopic(prefix, t[i].name)
    {
      AnnouncedAt(c, t, prefix, id, built, metaSize, k);
      TopicsDistinct(t, prefix, AnnouncedTopic(t, k), State(i));
    }
  }

  /** What an announcement leaves under a state topic. */
  lemma StateStays(c: Text.Libc, t: Table, prefix: string, id: M.Identity, built: string, metaSize: nat,
                   broker: map<string, string>, net: Network, i: nat)
    requires NamesOk(t) && i < |t|
    ensures var r := Mqtt.Delivered(broker, Mqtt.Announcement(c, t, prefix, id, built, metaSize), net);
            var topic := StateTopic(prefix, t[i].name);
      (topic in r <==> topic in broker) && (topic in broker ==> r[topic] == broker[topic])
  {
    NotAnnounced(c, t, prefix, id, built, metaSize, i);
    DeliveredElsewhere(broker, Mqtt.Announcement(c, t, prefix, id, built, metaSize), net,
                       StateTopic(prefix, t[i].name));
  }

  lemma AnnounceKeeps(t: Table, c: Text.Libc, prefix: string, s: Link, id: M.Identity, built: string, metaSize: nat,
                      net: Network)
    requires NamesOk(t) && Consistent(t, c, prefix, s)
    ensures Consistent(t, c, prefix, After(t, c, prefix, s, Announce(id, built, metaSize, net)))
  {
    forall i | i in s.synced
      ensures Retained(t, c, prefix, After(t, c, prefix, s, Announce(id, built, metaSize, net)), i, s.shadow[i])
    {
      StateStays(c, t, prefix, id, built, metaSize, s.broker, net, i);
    }
  }

  // ----- a synced entry's topic holds its shadow, over whole runs -----

  lemma AfterKeeps(t: Table, c: Text.Libc, prefix: string, s: Link, e: Event)
    requires NamesOk(t) && Consistent(t, c, prefix, s)
    ensures Consistent(t, c, prefix, After(t, c, prefix, s, e))
  {
    match e
    case Change(_, _) =>
    case Poll(h, net) => PollKeeps(t, h, c, prefix, net, s, 0);
    case Resend(h, net) => PollKeeps(t, h, c, prefix, net, s.(synced := {}), 0);
    case Announce(id, built, metaSize, net) => AnnounceKeeps(t, c, prefix, s, id, built, metaSize, net);
  }

  lemma {:induction false} RunKeeps(t: Table, c: Text.Libc, prefix: string, s: Link, events: seq<Event>)
    requires NamesOk(t) && Consistent(t, c, prefix, s)
    ensures Consistent(t, c, prefix, Run(t, c, prefix, s, events))
    decreases |events|
  {
    if events != [] {
      AfterKeeps(t, c, prefix, s, events[0]);
      RunKeeps(t, c, prefix, After(t, c, prefix, s, events[0]), events[1..]);
    }
  }

  /** In every state reachable from a freshly bound adapter, whatever the broker held at the start and
      whatever was refused: a synced entry's retained payload is the text of its shadow. */
  lemma SyncedMeansRetained(t: Table, c: Text.Libc, prefix: string, s: Link, events: seq<Event>)
    requires NamesOk(t) && Sized(t, s) && s.synced == {}
    ensures Consistent(t, c, prefix, Run(t, c, prefix, s, events))
  {
    RunKeeps(t, c, prefix, s, events);
  }
}
