/** What an MQTT poll does for one register, said in terms of the value the register yields: when it is sent, what
    text arrives under which topic, and what the adapter remembers. */
module MqttValues {
  import opened Words
  import opened Registers
  import opened MqttTopics
  import opened MqttSync
  import Text
  import TextForms

  // ----- the payload -----

  /** The text shows the register's value: plain decimal, a truth value, or six digits of a float. */
  predicate Shows(c: Text.Libc, ty: RegType, v: uint32, text: string) {
    match ty
    case U8 | U16 | U32 => TextForms.IsDecimal(text, v)
    case I8 | I16 | I32 =>
      if v < 0x8000_0000 then TextForms.IsDecimal(text, v)
      else text != "" && text[0] == '-' && TextForms.IsDecimal(text[1..], 0x1_0000_0000 - v)
    case Bool => text == if v == 0 then "false" else "true"
    case Float => |c.general(v)| < 32 ==> text == c.general(v)
  }

  lemma ShortText(c: Text.Libc, ty: RegType, v: uint32)
    requires ty != Float
    ensures |Text.RawText(c, ty, v)| <= 11 && Payload(c, ty, v) == Text.RawText(c, ty, v)
  {
    Text.DecimalLength(v, 10);
    Text.DecimalLength(if Signed(v) < 0 then 0 - Signed(v) else Signed(v), 10);
  }

  /** A payload shows its value. */
  lemma PayloadShows(c: Text.Libc, ty: RegType, v: uint32)
    ensures Shows(c, ty, v, Payload(c, ty, v))
  {
    TextForms.PrintedForms(c, ty, v);
    if ty != Float { ShortText(c, ty, v); }
  }

  /** A subscriber who reads it as the device itself would has the very value again. */
  lemma PayloadReads(c: Text.Libc, ty: RegType, v: uint32)
    requires ty != Float && (ty == Bool ==> v <= 1)
    ensures Text.ParseText(c, ty, Payload(c, ty, v)) == Text.Raw(v)
  {
    ShortText(c, ty, v);
    Text.PrintThenParse(c, ty, v);
  }

  // ----- one register's part in a poll -----

  /** Reading the entries before k does not change what k yields. */
  lemma {:induction false} StillYields(t: Table, h: Hooks, d: Device, i: nat, k: nat, v: uint32)
    requires i <= k < |t| == |d.cells| && Yields(t, h, d, k, v)
    ensures Yields(t, h, ReadOn(t, h, d, i, k), k, v)
    decreases k - i
  {
    if i < k {
      OthersYield(t, h, d, k, i, v);
      StillYields(t, h, GetRaw(t, h, d, i).d, i + 1, k, v);
    }
  }

  /** The register's topic, flags and variable after its turn, by the fate of its message. */
  ghost predicate Turned(t: Table, c: Text.Libc, prefix: string, s: Link, r: Link, k: nat, v: uint32, sent: bool,
                         fate: Outcome)
    requires k < |t| && Sized(t, s) && Sized(t, r)
  {
    var topic := prefix + "/" + t[k].name;
    && Load(t[k].rtype, r.d.cells[k]) == v
    && (sent && fate != RefusedAndLost ==> topic in r.broker && Shows(c, t[k].rtype, v, r.broker[topic]))
    && (!sent || fate == RefusedAndLost ==>
          && (topic in r.broker <==> topic in s.broker)
          && (topic in s.broker ==> r.broker[topic] == s.broker[topic]))
    && (sent && fate == Accepted ==> k in r.synced && r.shadow[k] == v)
    && (sent && fate != Accepted ==> k !in r.synced && r.shadow[k] == s.shadow[k])
    && (!sent ==> k in r.synced && r.shadow[k] == v)
  }

  lemma VisitTurns(t: Table, h: Hooks, c: Text.Libc, prefix: string, net: Network, s: Link, k: nat, v: uint32)
    requires k < |t| && Sized(t, s) && YieldsNow(t, h, s.d, k, v)
    ensures var turn := Visit(t, h, c, prefix, net, s, k);
      && (turn.tried <==> k !in s.synced || s.shadow[k] != v)
      && Turned(t, c, prefix, s, turn.s, k, v, turn.tried, net(k))
  {
    GetRawEffect(t, h, s.d, k, v);
    PayloadShows(c, t[k].rtype, v);
  }

  /** A poll samples the value each register yields, on_read included. It is handed over exactly when it is not
      what the adapter knows the broker to have; what arrives shows that value, retained under prefix/name; an
      accepted one is remembered, a refused one is not; and nothing else of the register changes. */
  lemma PollSends(t: Table, h: Hooks, c: Text.Libc, prefix: string, net: Network, s: Link, k: nat, v: uint32)
    requires NamesOk(t) && k < |t| && Sized(t, s) && Yields(t, h, s.d, k, v)
    ensures var poll := PollFrom(t, h, c, prefix, net, s, 0);
      && (k in poll.tried <==> k !in s.synced || s.shadow[k] != v)
      && Turned(t, c, prefix, s, poll.s, k, v, k in poll.tried, net(k))
  {
    var at := PollReaches(t, h, c, prefix, net, s, 0, k);
    StillYields(t, h, s.d, 0, k, v);
    YieldsHere(t, h, at.d, k, v);
    VisitTurns(t, h, c, prefix, net, at, k, v);
    TurnedAlike(t, c, prefix, s, at, Visit(t, h, c, prefix, net, at, k).s, PollFrom(t, h, c, prefix, net, s, 0).s, k, v,
                Visit(t, h, c, prefix, net, at, k).tried, net(k));
  }

  lemma TurnedAlike(t: Table, c: Text.Libc, prefix: string, s: Link, at: Link, r: Link, later: Link, k: nat, v: uint32,
                    sent: bool, fate: Outcome)
    requires k < |t| && Sized(t, s) && Sized(t, at) && Sized(t, r) && Sized(t, later)
    requires SameAt(t, prefix, s, at, k) && SameAt(t, prefix, r, later, k)
    requires Turned(t, c, prefix, at, r, k, v, sent, fate)
    ensures Turned(t, c, prefix, s, later, k, v, sent, fate)
  {
  }

  /** A full resend hands over every register, whatever the adapter knew before. */
  lemma ResendSendsAll(t: Table, h: Hooks, c: Text.Libc, prefix: string, net: Network, s: Link, k: nat)
    requires NamesOk(t) && k < |t| && Sized(t, s)
    ensures k in PublishAll(t, h, c, prefix, net, s).tried
  {
    SentIff(t, h, c, prefix, net, s.(synced := {}), k);
  }
}
