/** Flat JSON objects (RFC 8259, section 4) as a host reads them: string members and bare ones. Reading what
    was rendered gives the members back, so every payload of the self-description can be read unambiguously. */
module JsonObject {
  import opened Words
  import opened Fingerprint
  import Json
  import Seqs

  /** A string, or the text of a bare value (a number, null). */
  datatype Value = Str(s: string) | Bare(text: string)

  datatype Item = Item(key: string, value: Value)

  /** A bare value ends at the next comma or brace. */
  predicate BareOk(text: string) {
    text != "" && text[0] != '"' && BareEnd(text) == |text|
  }

  function BareEnd(s: string): (n: nat)
    ensures n <= |s|
  {
    if s == "" || s[0] == ',' || s[0] == '}' then 0 else 1 + BareEnd(s[1..])
  }

  predicate ItemOk(m: Item) {
    CText(m.key) && (if m.value.Str? then CText(m.value.s) else BareOk(m.value.text))
  }

  predicate AllOk(ms: seq<Item>) {
    forall k :: 0 <= k < |ms| ==> ItemOk(ms[k])
  }

  // ----- the text of an object -----

  function ValueText(v: Value): string {
    match v
    case Str(s) => Json.JsonString(s)
    case Bare(text) => text
  }

  function ItemText(m: Item): string {
    Json.JsonString(m.key) + (":" + ValueText(m.value))
  }

  /** The items after the first, each behind its comma. */
  function More(ms: seq<Item>): string {
    if ms == [] then "" else "," + ItemText(ms[0]) + More(ms[1..])
  }

  function Render(first: Item, rest: seq<Item>): string {
    "{" + ItemText(first) + (More(rest) + "}")
  }

  lemma {:induction false} MoreConcat(a: seq<Item>, b: seq<Item>)
    ensures More(a + b) == More(a) + More(b)
  {
    if a == [] {
      assert a + b == b;
    } else {
      assert (a + b)[1..] == a[1..] + b;
      MoreConcat(a[1..], b);
    }
  }

  // ----- reading it -----

  datatype ReadValue = NoValue | Read(value: Value, rest: string)

  function ParseValue(s: string): (r: ReadValue)
    ensures r.Read? ==> |r.rest| < |s|
  {
    if s != "" && s[0] == '"' then
      match Json.Decode(s[1..])
      case Malformed => NoValue
      case Decoded(text, rest) => Read(Str(text), rest)
    else if BareEnd(s) == 0 then NoValue
    else Read(Bare(s[..BareEnd(s)]), s[BareEnd(s)..])
  }

  datatype ReadItem = NoItem | One(m: Item, rest: string)

  function ParseItem(s: string): (r: ReadItem)
    ensures r.One? ==> |r.rest| < |s|
  {
    match ParseValue(s)
    case NoValue => NoItem
    case Read(key, rest) =>
      if key.Bare? || rest == "" || rest[0] != ':' then NoItem
      else
        match ParseValue(rest[1..])
        case NoValue => NoItem
        case Read(value, rest) => One(Item(key.s, value), rest)
  }

  function ParseItems(s: string): Option<seq<Item>>
    decreases |s|
  {
    match ParseItem(s)
    case NoItem => None
    case One(m, rest) =>
      if rest == "}" then Some([m])
      else if rest == "" || rest[0] != ',' then None
      else
        match ParseItems(rest[1..])
        case None => None
        case Some(ms) => Some([m] + ms)
  }

  /** The members of a non-empty flat object. */
  function Parse(s: string): Option<seq<Item>> {
    if s == "" || s[0] != '{' then None else ParseItems(s[1..])
  }

  predicate Stops(rest: string) {
    rest != "" && (rest[0] == ',' || rest[0] == '}')
  }

  lemma {:induction false} BareEndConcat(text: string, rest: string)
    requires BareEnd(text) == |text| && Stops(rest)
    ensures BareEnd(text + rest) == |text|
  {
    if text == "" { assert text + rest == rest; } else {
      assert (text + rest)[1..] == text[1..] + rest;
      BareEndConcat(text[1..], rest);
    }
  }

  lemma StrReads(s: string, rest: string)
    requires CText(s)
    ensures ParseValue(Json.JsonString(s) + rest) == Read(Str(s), rest)
  {
    Json.EscapeRoundTrip(s, rest);
    QuoteFirst(Json.Body(s), rest);
  }

  lemma QuoteFirst(body: string, rest: string)
    ensures var text := "\"" + body + "\"" + rest; text != "" && text[0] == '"' && text[1..] == body + "\"" + rest
  {
  }

  lemma ValueReads(v: Value, rest: string)
    requires if v.Str? then CText(v.s) else BareOk(v.text)
    requires Stops(rest)
    ensures ParseValue(ValueText(v) + rest) == Read(v, rest)
  {
    if v.Str? { StrReads(v.s, rest); } else {
      BareEndConcat(v.text, rest);
      assert (v.text + rest)[0] == v.text[0];
    }
  }

  lemma ItemReads(m: Item, rest: string)
    requires ItemOk(m) && Stops(rest)
    ensures ParseItem(ItemText(m) + rest) == One(m, rest)
  {
    var value := ValueText(m.value);
    Seqs.Assoc(Json.JsonString(m.key), ":" + value, rest);
    Seqs.Assoc(":", value, rest);
    StrReads(m.key, ":" + (value + rest));
    ValueReads(m.value, rest);
    KeyThenValue(ItemText(m) + rest, m.key, ":" + (value + rest), m.value, rest);
  }

  lemma KeyThenValue(text: string, key: string, later: string, v: Value, rest: string)
    requires ParseValue(text) == Read(Str(key), later)
    requires later != "" && later[0] == ':' && ParseValue(later[1..]) == Read(v, rest)
    ensures ParseItem(text) == One(Item(key, v), rest)
  {
  }

  lemma Closing(more: string)
    requires more == "" || more[0] == ','
    ensures Stops(more + "}") && (more + "}" == "}" <==> more == "")
  {
    assert more != "" ==> |more + "}"| > 1;
  }

  lemma MoreNext(m: Item, rest: seq<Item>)
    ensures More([m] + rest)[0] == ','
    ensures (More([m] + rest) + "}")[1..] == ItemText(m) + (More(rest) + "}")
  {
    assert ([m] + rest)[1..] == rest;
    CommaFirst(ItemText(m), More(rest));
  }

  lemma CommaFirst(item: string, more: string)
    ensures ("," + item + more)[0] == ',' && ("," + item + more + "}")[1..] == item + (more + "}")
  {
  }

  lemma {:induction false} ItemsRead(first: Item, rest: seq<Item>)
    requires ItemOk(first) && AllOk(rest)
    ensures ParseItems(ItemText(first) + (More(rest) + "}")) == Some([first] + rest)
    decreases |rest|
  {
    if rest == [] {
      Closing(More(rest));
      ItemReads(first, More(rest) + "}");
      assert [first] + rest == [first];
    } else {
      assert rest == [rest[0]] + rest[1..];
      MoreNext(rest[0], rest[1..]);
      Closing(More(rest));
      ItemReads(first, More(rest) + "}");
      ItemsRead(rest[0], rest[1..]);
      ItemsStep(ItemText(first) + (More(rest) + "}"), first, More(rest) + "}", rest);
    }
  }

  lemma {:induction false} ItemsStep(text: string, first: Item, later: string, rest: seq<Item>)
    requires ParseItem(text) == One(first, later) && later != "}" && later != "" && later[0] == ','
    requires ParseItems(later[1..]) == Some(rest)
    ensures ParseItems(text) == Some([first] + rest)
  {
  }

  /** Reading what was rendered. */
  lemma {:induction false} ParseRender(first: Item, rest: seq<Item>)
    requires ItemOk(first) && AllOk(rest)
    ensures Parse(Render(first, rest)) == Some([first] + rest)
  {
    ItemsRead(first, rest);
    BraceFirst(ItemText(first), More(rest) + "}");
  }

  lemma BraceFirst(item: string, more: string)
    ensures ("{" + item + more)[0] == '{' && ("{" + item + more)[1..] == item + more
  {
  }
}
