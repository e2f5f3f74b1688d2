/** The topics of the MQTT projection: how they are printed, which of them is a command, and why no two
    of them ever coincide (MQTT 3.1.1, section 4.7 for what a topic name may contain). */
module MqttTopics {
  import opened Words
  import opened Registers
  import Core
  import Text

  /** Longest register name the adapter accepts. */
  const NAME_MAX := 31

  predicate NameOk(name: string) {
    1 <= |name| <= NAME_MAX && '/' !in name && '+' !in name && '#' !in name && name[0] != '$'
  }

  predicate PrefixOk(prefix: string) {
    prefix != "" && '+' !in prefix && '#' !in prefix
  }

  predicate NamesOk(t: Table) {
    && (forall i :: 0 <= i < |t| ==> NameOk(t[i].name))
    && (forall i, j :: 0 <= i < j < |t| ==> t[i].name != t[j].name)
  }

  function StateTopic(prefix: string, name: string): string {
    prefix + "/" + name
  }

  function SetTopic(prefix: string, name: string): string {
    prefix + "/" + (name + "/set")
  }

  function MetaTopic(prefix: string, name: string): string {
    prefix + "/" + ("$meta/" + name)
  }

  /** Every topic the projection of a table uses. */
  datatype Topic = State(i: nat) | Set(i: nat) | Meta(i: nat) | Descriptor | Identity

  predicate Known(t: Table, topic: Topic) {
    match topic
    case State(i) => i < |t|
    case Set(i) => i < |t|
    case Meta(i) => i < |t|
    case Descriptor => true
    case Identity => true
  }

  /** What follows `<prefix>/`. */
  function Tail(t: Table, topic: Topic): string
    requires Known(t, topic)
  {
    match topic
    case State(i) => t[i].name
    case Set(i) => t[i].name + "/set"
    case Meta(i) => "$meta/" + t[i].name
    case Descriptor => "$meta/$table"
    case Identity => "$meta/$id"
  }

  function TopicText(t: Table, prefix: string, topic: Topic): string
    requires Known(t, topic)
  {
    prefix + "/" + Tail(t, topic)
  }

  /** The five kinds, as a subscriber spells them. */
  lemma TopicsSpelled(t: Table, prefix: string, i: nat)
    requires i < |t|
    ensures TopicText(t, prefix, State(i)) == prefix + "/" + t[i].name == StateTopic(prefix, t[i].name)
    ensures TopicText(t, prefix, Set(i)) == prefix + "/" + t[i].name + "/set"
    ensures TopicText(t, prefix, Meta(i)) == prefix + "/$meta/" + t[i].name
    ensures TopicText(t, prefix, Descriptor) == prefix + "/$meta/$table"
    ensures TopicText(t, prefix, Identity) == prefix + "/$meta/$id"
  {
    Slashed(prefix, t[i].name, "/set");
    Slashed(prefix, "$meta/", t[i].name);
    SlashedLiterals();
    Together(prefix, "/", "$meta/", "/$meta/");
    Together(prefix, "/", "$meta/$table", "/$meta/$table");
    Together(prefix, "/", "$meta/$id", "/$meta/$id");
  }

  lemma Slashed(prefix: string, a: string, b: string)
    ensures prefix + "/" + (a + b) == prefix + "/" + a + b
  {
  }

  lemma Together(prefix: string, a: string, b: string, both: string)
    requires a + b == both
    ensures prefix + a + b == prefix + both
  {
  }

  lemma SlashedLiterals()
    ensures "/" + "$meta/" == "/$meta/" && "/" + "$meta/$table" == "/$meta/$table" && "/" + "$meta/$id" == "/$meta/$id"
  {
  }

  /** A name is one topic level of 1 to 31 characters without wildcards that does not start with a dollar; a prefix
      is not empty and has no wildcards. */
  lemma LawfulTexts(s: string)
    ensures NameOk(s) <==>
              1 <= |s| <= 31 && s[0] != '$' && forall k :: 0 <= k < |s| ==> s[k] != '/' && s[k] != '+' && s[k] != '#'
    ensures PrefixOk(s) <==> |s| >= 1 && forall k :: 0 <= k < |s| ==> s[k] != '+' && s[k] != '#'
  {
  }

  // ----- texts cut at their first slash -----

  /** The index of the first slash, or the length when there is none. */
  function SlashAt(s: string): (k: nat)
    ensures k <= |s| && '/' !in s[..k] && (k < |s| ==> s[k] == '/')
  {
    if s == "" || s[0] == '/' then 0 else 1 + SlashAt(s[1..])
  }

  lemma {:induction false} SlashAfter(head: string, rest: string)
    requires '/' !in head
    ensures SlashAt(head) == |head| && SlashAt(head + "/" + rest) == |head|
  {
    if head != "" {
      SlashAfter(head[1..], rest);
      assert (head + "/" + rest)[1..] == head[1..] + "/" + rest;
    }
  }

  /** A topic tail by its levels: what precedes the first slash, and what follows it. */
  datatype Levels = Levels(head: string, rest: Option<string>)

  function Join(l: Levels): string {
    match l.rest
    case None => l.head
    case Some(rest) => l.head + "/" + rest
  }

  lemma JoinInjective(a: Levels, b: Levels)
    requires '/' !in a.head && '/' !in b.head
    ensures Join(a) == Join(b) <==> a == b
  {
    SlashAfter(a.head, if a.rest.Some? then a.rest.value else "");
    SlashAfter(b.head, if b.rest.Some? then b.rest.value else "");
    if Join(a) == Join(b) {
      var s, k := Join(a), |a.head|;
      assert a.head == s[..k] && b.head == s[..k];
      assert a.rest.Some? ==> a.rest.value == s[k + 1..];
      assert b.rest.Some? ==> b.rest.value == s[k + 1..];
    }
  }

  lemma PrefixCancels(prefix: string, a: string, b: string)
    ensures prefix + "/" + a == prefix + "/" + b <==> a == b
  {
    assert (prefix + "/" + a)[|prefix| + 1..] == a;
    assert (prefix + "/" + b)[|prefix| + 1..] == b;
  }

  // ----- no two topics coincide -----

  function TailLevels(t: Table, topic: Topic): Levels
    requires Known(t, topic)
  {
    match topic
    case State(i) => Levels(t[i].name, None)
    case Set(i) => Levels(t[i].name, Some("set"))
    case Meta(i) => Levels("$meta", Some(t[i].name))
    case Descriptor => Levels("$meta", Some("$table"))
    case Identity => Levels("$meta", Some("$id"))
  }

  lemma TailJoins(t: Table, topic: Topic)
    requires NamesOk(t) && Known(t, topic)
    ensures Tail(t, topic) == Join(TailLevels(t, topic)) && '/' !in TailLevels(t, topic).head
  {
    match topic
    case State(i) =>
    case Set(i) => assert t[i].name + "/" + "set" == t[i].name + "/set";
    case Meta(i) => assert "$meta" + "/" + t[i].name == "$meta/" + t[i].name;
    case Descriptor => assert "$meta" + "/" + "$table" == "$meta/$table";
    case Identity => assert "$meta" + "/" + "$id" == "$meta/$id";
  }

  lemma LevelsDiffer(t: Table, a: Topic, b: Topic)
    requires NamesOk(t) && Known(t, a) && Known(t, b) && a != b
    ensures TailLevels(t, a) != TailLevels(t, b)
  {
    if (a.State? && b.State?) || (a.Set? && b.Set?) || (a.Meta? && b.Meta?) { assert t[a.i].name != t[b.i].name; }
    assert "$meta"[0] == '$' && "$table"[0] == '$' && "$id"[0] == '$' && "$table"[1] != "$id"[1];
  }

  /** For any accepted table all topics are pairwise distinct. */
  lemma TopicsDistinct(t: Table, prefix: string, a: Topic, b: Topic)
    requires NamesOk(t) && Known(t, a) && Known(t, b) && a != b
    ensures TopicText(t, prefix, a) != TopicText(t, prefix, b)
  {
    TailJoins(t, a);
    TailJoins(t, b);
    LevelsDiffer(t, a, b);
    JoinInjective(TailLevels(t, a), TailLevels(t, b));
    PrefixCancels(prefix, Tail(t, a), Tail(t, b));
  }

  // ----- which topics are commands -----

  /** The register name of a command topic, by the steps of regmqtt_handle: the prefix and a slash, then
      the name up to the next slash, then exactly "/set". */
  function CommandName(prefix: string, topic: string): Option<string> {
    if !(prefix <= topic) || Text.At(topic, |prefix|) != '/' then None
    else TailName(topic[|prefix| + 1..])
  }

  function TailName(tail: string): Option<string> {
    var k := SlashAt(tail);
    if tail[k..] != "/set" || k == 0 || k > NAME_MAX then None else Some(tail[..k])
  }

  lemma TailNameIs(tail: string, name: string)
    ensures TailName(tail) == Some(name) <==> tail == name + "/set" && '/' !in name && 1 <= |name| <= NAME_MAX
  {
    if tail == name + "/set" && '/' !in name {
      assert tail == name + "/" + "set";
      SlashAfter(name, "set");
      assert tail[|name|..] == "/set";
    }
    assert tail == tail[..SlashAt(tail)] + tail[SlashAt(tail)..];
  }

  /** The command topics are exactly `<prefix>/<name>/set` with a name of one level and 1 to 31 characters. */
  lemma CommandIs(prefix: string, topic: string, name: string)
    ensures CommandName(prefix, topic) == Some(name) <==>
            topic == SetTopic(prefix, name) && '/' !in name && 1 <= |name| <= NAME_MAX
  {
    if prefix <= topic && Text.At(topic, |prefix|) == '/' {
      var tail := topic[|prefix| + 1..];
      assert topic == prefix + "/" + tail;
      TailNameIs(tail, name);
      PrefixCancels(prefix, tail, name + "/set");
    } else {
      assert SetTopic(prefix, name)[|prefix|] == '/' && prefix <= SetTopic(prefix, name);
    }
  }

  /** strchr for a slash. */
  method FindSlash(s: string) returns (k: nat)
    ensures k == SlashAt(s)
  {
    k := 0;
    while k < |s| && s[k] != '/'
      invariant k <= |s| && k + SlashAt(s[k..]) == SlashAt(s)
    {
      assert s[k..][1..] == s[k + 1..];
      k := k + 1;
    }
  }

  /** The topic checks of regmqtt_handle. */
  method ParseCommand(prefix: string, topic: string) returns (name: Option<string>)
    ensures name == CommandName(prefix, topic)
  {
    if !(prefix <= topic) || Text.At(topic, |prefix|) != '/' { return None; }
    var rest := topic[|prefix| + 1..];
    var slash := FindSlash(rest);
    if slash == |rest| || rest[slash..] != "/set" { return None; }
    if slash == 0 || slash > NAME_MAX { return None; }
    return Some(rest[..slash]);
  }

  /** regmqtt_handle: the device afterwards and the result. */
  function HandleReply(t: Table, h: Hooks, c: Text.Libc, prefix: string, d: Device, topic: string, payload: string)
    : (w: Written)
    requires |d.cells| == |t|
    ensures |w.d.cells| == |t|
  {
    match CommandName(prefix, topic)
    case None => Written(d, NotFound)
    case Some(name) =>
      match Find(t, name)
      case None => Written(d, NotFound)
      case Some(i) => Text.SetText(t, h, c, d, i, payload)
  }

  method Handle(table: Core.RegTable, h: Hooks, c: Text.Libc, prefix: string, topic: string, payload: string)
    returns (r: RegResult)
    requires table.Bound() && Text.Conforming(c) && '\0' !in payload
    modifies table`cells, table`dirty
    ensures table.Bound()
    ensures Written(table.State(), r) == HandleReply(table.entries, h, c, prefix, old(table.State()), topic, payload)
  {
    var name := ParseCommand(prefix, topic);
    if name.None? { return NotFound; }
    var e := table.FindEntry(name.value);
    if e.None? { return NotFound; }
    r := Text.SetStr(table, h, c, e.value, payload);
  }

  /** Only a tail whose second level is exactly "set" names a command. */
  lemma LevelsCommand(l: Levels)
    requires '/' !in l.head
    ensures TailName(Join(l)) == if l.rest == Some("set") && 1 <= |l.head| <= NAME_MAX then Some(l.head) else None
  {
    var rest := if l.rest.Some? then l.rest.value else "";
    SlashAfter(l.head, rest);
    assert Join(l)[..|l.head|] == l.head;
    assert l.rest.Some? ==> Join(l)[|l.head|..] == "/" + rest;
    assert ("/" + rest == "/set") == (rest == "set") by {
      assert ("/" + rest)[1..] == rest && "/set"[1..] == "set";
      assert "/" + "set" == "/set";
    }
  }

  lemma TopicCommand(t: Table, prefix: string, topic: Topic)
    requires NamesOk(t) && Known(t, topic)
    ensures CommandName(prefix, TopicText(t, prefix, topic)) == TailName(Join(TailLevels(t, topic)))
  {
    var text := TopicText(t, prefix, topic);
    assert prefix <= text && text[|prefix|] == '/' && text[|prefix| + 1..] == Tail(t, topic);
    TailJoins(t, topic);
  }

  /** Every topic of the projection gets the right treatment: the command topic of entry i is a write to
      entry i, and every state and metadata topic is refused, `<prefix>/$meta/set` included. */
  lemma HandleResolves(t: Table, h: Hooks, c: Text.Libc, prefix: string, d: Device, topic: Topic, payload: string)
    requires NamesOk(t) && Known(t, topic) && |d.cells| == |t|
    ensures HandleReply(t, h, c, prefix, d, TopicText(t, prefix, topic), payload)
         == if topic.Set? then Text.SetText(t, h, c, d, topic.i, payload) else Written(d, NotFound)
  {
    TopicCommand(t, prefix, topic);
    TailJoins(t, topic);
    LevelsCommand(TailLevels(t, topic));
    if topic.Set? { FindNamed(t, topic.i); }
    NoDollarName(t, "$meta");
  }

  lemma FindNamed(t: Table, i: nat)
    requires NamesOk(t) && i < |t|
    ensures Find(t, t[i].name) == Some(i)
  {
  }

  lemma NoDollarName(t: Table, name: string)
    requires NamesOk(t) && |name| >= 1 && name[..1] == "$"
    ensures Find(t, name) == None
  {
    assert name[0] == '$';
  }
}
