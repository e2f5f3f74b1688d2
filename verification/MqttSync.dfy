/** The shadow as an outbox: what one poll publishes, and why the retained topics converge to the registers
    although a refused publish may or may not have reached the broker. */
module MqttSync {
  import opened Words
  import opened Registers
  import opened MqttTopics
  import Text

  /** What became of a message handed to publish(): accepted, or refused after it did or did not reach
      the broker. The adapter cannot tell the last two apart. */
  datatype Outcome = Accepted | RefusedButDelivered | RefusedAndLost

  /** What the network does in one poll: the fate of entry i's message, if there is one. */
  type Network = nat -> Outcome

  /** The registers, the adapter's shadow and synced flags, and the broker's retained messages. */
  datatype Link = Link(d: Device, shadow: seq<uint32>, synced: set<nat>, broker: map<string, string>)

  /** The text as the 32-byte payload buffer holds it. */
  function Payload(c: Text.Libc, ty: RegType, raw: uint32): string {
    var text := Text.RawText(c, ty, raw);
    if |text| <= 31 then text else text[..31]
  }

  predicate Sized(t: Table, s: Link) {
    |s.d.cells| == |t| == |s.shadow|
  }

  /** Entry i's raw value handed to publish(), and what the adapter notes of it. */
  function Offer(t: Table, c: Text.Libc, prefix: string, fate: Outcome, s: Link, i: nat, raw: uint32): (r: Link)
    requires i < |t| && Sized(t, s)
    ensures Sized(t, r)
  {
    var retained := s.broker[StateTopic(prefix, t[i].name) := Payload(c, t[i].rtype, raw)];
    match fate
    case Accepted => Link(s.d, s.shadow[i := raw], s.synced + {i}, retained)
    case RefusedButDelivered => Link(s.d, s.shadow, s.synced - {i}, retained)
    case RefusedAndLost => Link(s.d, s.shadow, s.synced - {i}, s.broker)
  }

  /** One entry's turn: the link afterwards and whether a message was handed over. */
  datatype Turn = Turn(s: Link, tried: bool)

  /** Entry i's turn in regmqtt_poll. */
  function Visit(t: Table, h: Hooks, c: Text.Libc, prefix: string, net: Network, s: Link, i: nat): (r: Turn)
    requires i < |t| && Sized(t, s)
    ensures Sized(t, r.s)
  {
    var f := GetRaw(t, h, s.d, i);
    if i in s.synced && f.raw == s.shadow[i] then Turn(s.(d := f.d), false)
    else Turn(Offer(t, c, prefix, net(i), s.(d := f.d), i, f.raw), true)
  }

  /** The link after a poll, and the entries messages were handed over for, in order. */
  datatype Polled = Polled(s: Link, tried: seq<nat>)

  /** regmqtt_poll from entry i on. */
  function PollFrom(t: Table, h: Hooks, c: Text.Libc, prefix: string, net: Network, s: Link, i: nat): (r: Polled)
    requires i <= |t| && Sized(t, s)
    ensures Sized(t, r.s)
    decreases |t| - i
  {
    if i == |t| then Polled(s, [])
    else
      var v := Visit(t, h, c, prefix, net, s, i);
      var rest := PollFrom(t, h, c, prefix, net, v.s, i + 1);
      Polled(rest.s, (if v.tried then [i] else []) + rest.tried)
  }

  /** regmqtt_publish_all: forget what is synced, then poll. */
  function PublishAll(t: Table, h: Hooks, c: Text.Libc, prefix: string, net: Network, s: Link): (r: Polled)
    requires Sized(t, s)
    ensures Sized(t, r.s)
  {
    PollFrom(t, h, c, prefix, net, s.(synced := {}), 0)
  }

  // ----- a synced entry's topic holds its shadow -----

  predicate Retained(t: Table, c: Text.Libc, prefix: string, s: Link, i: nat, raw: uint32)
    requires i < |t|
  {
    StateTopic(prefix, t[i].name) in s.broker && s.broker[StateTopic(prefix, t[i].name)] == Payload(c, t[i].rtype, raw)
  }

  ghost predicate Consistent(t: Table, c: Text.Libc, prefix: string, s: Link) {
    && Sized(t, s)
    && forall i :: i in s.synced ==> i < |t| && Retained(t, c, prefix, s, i, s.shadow[i])
  }

  lemma StateTopicsDiffer(t: Table, prefix: string, i: nat, j: nat)
    requires NamesOk(t) && i < |t| && j < |t| && i != j
    ensures StateTopic(prefix, t[i].name) != StateTopic(prefix, t[j].name)
  {
    TopicsDistinct(t, prefix, State(i), State(j));
  }

  lemma VisitKeeps(t: Table, h: Hooks, c: Text.Libc, prefix: string, net: Network, s: Link, i: nat)
    requires NamesOk(t) && i < |t| && Consistent(t, c, prefix, s)
    ensures Consistent(t, c, prefix, Visit(t, h, c, prefix, net, s, i).s)
  {
    var r := Visit(t, h, c, prefix, net, s, i).s;
    forall j | j in r.synced ensures j < |t| && Retained(t, c, prefix, r, j, r.shadow[j]) {
      if j != i { StateTopicsDiffer(t, prefix, i, j); }
    }
  }

  lemma {:induction false} PollKeeps(t: Table, h: Hooks, c: Text.Libc, prefix: string, net: Network, s: Link, i: nat)
    requires NamesOk(t) && i <= |t| && Consistent(t, c, prefix, s)
    ensures Consistent(t, c, prefix, PollFrom(t, h, c, prefix, net, s, i).s)
    decreases |t| - i
  {
    if i < |t| {
      VisitKeeps(t, h, c, prefix, net, s, i);
      PollKeeps(t, h, c, prefix, net, Visit(t, h, c, prefix, net, s, i).s, i + 1);
    }
  }

  // ----- what one poll leaves alone, and what it sends -----

  /** Two links agree on everything that belongs to entry k. */
  ghost predicate SameAt(t: Table, prefix: string, a: Link, b: Link, k: nat)
    requires k < |t| && Sized(t, a) && Sized(t, b)
  {
    var topic := StateTopic(prefix, t[k].name);
    && a.d.cells[k] == b.d.cells[k] && a.shadow[k] == b.shadow[k] && (k in a.synced <==> k in b.synced)
    && (topic in a.broker <==> topic in b.broker) && (topic in a.broker ==> a.broker[topic] == b.broker[topic])
  }

  lemma VisitLeavesOthers(t: Table, h: Hooks, c: Text.Libc, prefix: string, net: Network, s: Link, i: nat, k: nat)
    requires NamesOk(t) && i < |t| && k < |t| && i != k && Sized(t, s)
    ensures SameAt(t, prefix, s, Visit(t, h, c, prefix, net, s, i).s, k)
  {
    StateTopicsDiffer(t, prefix, i, k);
  }

  /** From entry i on, a poll does not touch what belongs to the entries before i. */
  lemma {:induction false} PollLeavesEarlier(t: Table, h: Hooks, c: Text.Libc, prefix: string, net: Network, s: Link,
                                             i: nat, k: nat)
    requires NamesOk(t) && k < i <= |t| && Sized(t, s)
    ensures SameAt(t, prefix, s, PollFrom(t, h, c, prefix, net, s, i).s, k)
    decreases |t| - i
  {
    if i < |t| {
      VisitLeavesOthers(t, h, c, prefix, net, s, i, k);
      PollLeavesEarlier(t, h, c, prefix, net, Visit(t, h, c, prefix, net, s, i).s, i + 1, k);
    }
  }

  /** A poll is one entry's turn and the poll from the next entry on. */
  lemma PollStep(t: Table, h: Hooks, c: Text.Libc, prefix: string, net: Network, s: Link, i: nat, k: nat)
    requires i < |t| && Sized(t, s)
    ensures var v := Visit(t, h, c, prefix, net, s, i);
            var poll, rest := PollFrom(t, h, c, prefix, net, s, i), PollFrom(t, h, c, prefix, net, v.s, i + 1);
      poll.s == rest.s && (k in poll.tried <==> (v.tried && k == i) || k in rest.tried)
  {
  }

  lemma SameAtTrans(t: Table, prefix: string, a: Link, b: Link, c: Link, k: nat)
    requires k < |t| && Sized(t, a) && Sized(t, b) && Sized(t, c)
    requires SameAt(t, prefix, a, b, k) && SameAt(t, prefix, b, c, k)
    ensures SameAt(t, prefix, a, c, k)
  {
  }

  /** The device once entries i to k - 1 were read, which is all a poll does to it on the way to entry k. */
  function ReadOn(t: Table, h: Hooks, d: Device, i: nat, k: nat): (r: Device)
    requires i <= k <= |t| == |d.cells|
    ensures |r.cells| == |t|
    decreases k - i
  {
    if i == k then d else ReadOn(t, h, GetRaw(t, h, d, i).d, i + 1, k)
  }

  /** The poll from entry i on reaches entry k's turn, at this link, with nothing of entry k's changed, and
      changes none of it later. */
  ghost predicate Reached(t: Table, h: Hooks, c: Text.Libc, prefix: string, net: Network, s: Link, i: nat, k: nat,
                          at: Link)
    requires i <= k < |t| && Sized(t, s)
  {
    var poll := PollFrom(t, h, c, prefix, net, s, i);
    && Sized(t, at) && SameAt(t, prefix, s, at, k) && at.d == ReadOn(t, h, s.d, i, k)
    && SameAt(t, prefix, Visit(t, h, c, prefix, net, at, k).s, poll.s, k)
    && (k in poll.tried <==> Visit(t, h, c, prefix, net, at, k).tried)
  }

  lemma ReachedNow(t: Table, h: Hooks, c: Text.Libc, prefix: string, net: Network, s: Link, k: nat)
    requires NamesOk(t) && k < |t| && Sized(t, s)
    ensures Reached(t, h, c, prefix, net, s, k, k, s)
  {
    var v := Visit(t, h, c, prefix, net, s, k);
    PollStep(t, h, c, prefix, net, s, k, k);
    PollLeavesEarlier(t, h, c, prefix, net, v.s, k + 1, k);
    TriedLater(t, h, c, prefix, net, v.s, k + 1);
  }

  lemma ReachedLater(t: Table, h: Hooks, c: Text.Libc, prefix: string, net: Network, s: Link, i: nat, k: nat, at: Link)
    requires NamesOk(t) && i < k < |t| && Sized(t, s)
    requires Reached(t, h, c, prefix, net, Visit(t, h, c, prefix, net, s, i).s, i + 1, k, at)
    ensures Reached(t, h, c, prefix, net, s, i, k, at)
  {
    var v := Visit(t, h, c, prefix, net, s, i);
    PollStep(t, h, c, prefix, net, s, i, k);
    VisitLeavesOthers(t, h, c, prefix, net, s, i, k);
    SameAtTrans(t, prefix, s, v.s, at, k);
  }

  lemma {:induction false} PollReaches(t: Table, h: Hooks, c: Text.Libc, prefix: string, net: Network, s: Link, i: nat,
                                       k: nat) returns (at: Link)
    requires NamesOk(t) && i <= k < |t| && Sized(t, s)
    ensures Reached(t, h, c, prefix, net, s, i, k, at)
    decreases |t| - i
  {
    if i == k {
      at := s;
      ReachedNow(t, h, c, prefix, net, s, k);
    } else {
      at := PollReaches(t, h, c, prefix, net, Visit(t, h, c, prefix, net, s, i).s, i + 1, k);
      ReachedLater(t, h, c, prefix, net, s, i, k, at);
    }
  }

  lemma {:induction false} TriedLater(t: Table, h: Hooks, c: Text.Libc, prefix: string, net: Network, s: Link, i: nat)
    requires i <= |t| && Sized(t, s)
    ensures forall k :: k in PollFrom(t, h, c, prefix, net, s, i).tried ==> i <= k < |t|
    decreases |t| - i
  {
    if i < |t| { TriedLater(t, h, c, prefix, net, Visit(t, h, c, prefix, net, s, i).s, i + 1); }
  }

  /** After one poll whose every publish was accepted, every topic holds the text of exactly the raw that
      poll sampled, and every entry is synced to it. */
  lemma AcceptedPollConverges(t: Table, h: Hooks, c: Text.Libc, prefix: string, net: Network, s: Link)
    requires NamesOk(t) && Consistent(t, c, prefix, s) && forall i :: net(i) == Accepted
    ensures var r := PollFrom(t, h, c, prefix, net, s, 0).s;
      forall k: nat :: k < |t| ==>
        && k in r.synced && r.shadow[k] == Load(t[k].rtype, r.d.cells[k])
        && Retained(t, c, prefix, r, k, Load(t[k].rtype, r.d.cells[k]))
  {
    var r := PollFrom(t, h, c, prefix, net, s, 0).s;
    PollKeeps(t, h, c, prefix, net, s, 0);
    forall k: nat | k < |t|
      ensures k in r.synced && r.shadow[k] == Load(t[k].rtype, r.d.cells[k])
    {
      var at := PollReaches(t, h, c, prefix, net, s, 0, k);
    }
  }

  /** What on_read would leave in entry k now reads as the shadow: no change to report. */
  ghost predicate Steady(t: Table, h: Hooks, s: Link, k: nat)
    requires k < |t| && Sized(t, s)
  {
    forall cells: seq<uint32> :: |cells| == |t| && cells[k] == s.d.cells[k] ==>
      Load(t[k].rtype, Refresh(t, h, cells, k)[k]) == s.shadow[k]
  }

  /** What a poll samples of entry k, its on_read included. */
  function Sampled(t: Table, h: Hooks, s: Link, k: nat): uint32
    requires k < |t| && Sized(t, s)
  {
    GetRaw(t, h, ReadOn(t, h, s.d, 0, k), k).raw
  }

  /** An entry is sent exactly when it is not synced, or what is sampled differs from its shadow. */
  lemma SentIff(t: Table, h: Hooks, c: Text.Libc, prefix: string, net: Network, s: Link, k: nat)
    requires NamesOk(t) && k < |t| && Sized(t, s)
    ensures k in PollFrom(t, h, c, prefix, net, s, 0).tried <==> k !in s.synced || Sampled(t, h, s, k) != s.shadow[k]
  {
    var at := PollReaches(t, h, c, prefix, net, s, 0, k);
  }

  /** Whatever the other variables do. */
  lemma SteadySampled(t: Table, h: Hooks, c: Text.Libc, prefix: string, net: Network, s: Link, k: nat)
    requires NamesOk(t) && k < |t| && Sized(t, s) && Steady(t, h, s, k)
    ensures Sampled(t, h, s, k) == s.shadow[k]
  {
    var at := PollReaches(t, h, c, prefix, net, s, 0, k);
  }

  /** A further poll with no change hands nothing over. */
  lemma QuietPoll(t: Table, h: Hooks, c: Text.Libc, prefix: string, net: Network, s: Link)
    requires NamesOk(t) && Sized(t, s)
    requires forall k: nat :: k < |t| ==> k in s.synced && Steady(t, h, s, k)
    ensures PollFrom(t, h, c, prefix, net, s, 0).tried == []
  {
    var tried := PollFrom(t, h, c, prefix, net, s, 0).tried;
    TriedLater(t, h, c, prefix, net, s, 0);
    if tried != [] {
      var k := tried[0];
      assert k in tried;
      SentIff(t, h, c, prefix, net, s, k);
      SteadySampled(t, h, c, prefix, net, s, k);
    }
  }

  /** A poll whose every publish was accepted, then one that finds nothing new: the second hands nothing over. */
  lemma AcceptedThenQuiet(t: Table, h: Hooks, c: Text.Libc, prefix: string, net: Network, s: Link, g: Hooks,
                          later: Network)
    requires NamesOk(t) && Consistent(t, c, prefix, s) && forall i :: net(i) == Accepted
    requires var r := PollFrom(t, h, c, prefix, net, s, 0).s;
      forall k: nat :: k < |t| && t[k].onRead ==> Steady(t, g, r, k)
    ensures PollFrom(t, g, c, prefix, later, PollFrom(t, h, c, prefix, net, s, 0).s, 0).tried == []
  {
    var r := PollFrom(t, h, c, prefix, net, s, 0).s;
    AcceptedPollConverges(t, h, c, prefix, net, s);
    forall k: nat | k < |t| ensures k in r.synced && Steady(t, g, r, k) {
    }
    QuietPoll(t, g, c, prefix, later, r);
  }

  /** A refused value is resent by the next poll even if the register has meanwhile gone back to what the
      shadow holds. */
  lemma RefusedIsResent(t: Table, h: Hooks, c: Text.Libc, prefix: string, net: Network, s: Link, k: nat,
                        cells: seq<uint32>, dirty: set<nat>, g: Hooks, later: Network)
    requires NamesOk(t) && k < |t| && Sized(t, s) && |cells| == |t|
    requires k in PollFrom(t, h, c, prefix, net, s, 0).tried && net(k) != Accepted
    ensures var r := PollFrom(t, h, c, prefix, net, s, 0).s;
      k in PollFrom(t, g, c, prefix, later, r.(d := Device(cells, dirty)), 0).tried
  {
    var r := PollFrom(t, h, c, prefix, net, s, 0).s;
    var at := PollReaches(t, h, c, prefix, net, s, 0, k);
    SentIff(t, g, c, prefix, later, r.(d := Device(cells, dirty)), k);
  }
}
