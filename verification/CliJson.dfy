/** The JSON the CLI prints for an answer, and what a host's json.loads makes of it. */
module CliJson {
  import opened Words
  import opened Registers
  import opened Fingerprint
  import opened JsonObject
  import opened MqttReadable
  import Cli
  import Client
  import Discover
  import Float32
  import Json
  import M = MqttMeta
  import Seqs
  import Text

  // ----- what is printed -----

  /** reg_result_str */
  function ResultText(r: RegResult): string {
    match r
    case Ok => "OK"
    case NotFound => "ERR: not found"
    case ReadOnly => "ERR: read-only"
    case TypeError => "ERR: invalid value"
    case RangeError => "ERR: out of range"
    case Rejected => "ERR: rejected"
    case TableError => "ERR: bad table"
  }

  /** json_value: a float with nine digits, or null; everything else as it prints anyway. */
  function ValueJson(c: Text.Libc, ty: RegType, raw: uint32): string {
    if ty == Float then M.FloatText(c, raw) else Text.RawText(c, ty, raw)
  }

  /** {"error":"..."} */
  function ErrorJson(message: string): string {
    M.Member("{\"error\":", message) + "}"
  }

  function ResultJson(r: RegResult): string {
    if r == Ok then "{\"result\":\"OK\"}" else ErrorJson(ResultText(r))
  }

  function GetJson(c: Text.Libc, ty: RegType, raw: uint32): string {
    "{\"value\":" + ValueJson(c, ty, raw) + "}"
  }

  function DescJson(e: Entry): string {
    if e.description.Some? then M.DescText(e.description.value) else ""
  }

  /** json_entry */
  function EntryJson(c: Text.Libc, e: Entry, raw: uint32): string {
    M.HeadText(e) + (",\"value\":" + ValueJson(c, e.rtype, raw) + M.RangeText(c, e) + M.ModbusText(e))
    + (DescJson(e) + "}")
  }

  // ----- what json.loads makes of a value -----

  /** Reads the texts of numbers that are not plain integers. */
  type Numbers = string -> Client.Json

  function IntText(s: string): Option<int> {
    if s != "" && s[0] == '-' then
      (if Text.AllDigits(s[1..], 10) then Some(0 - Text.NumberOf(s[1..], 10)) else None)
    else if Text.AllDigits(s, 10) then Some(Text.NumberOf(s, 10))
    else None
  }

  function BareValue(number: Numbers, s: string): Client.Json {
    if s == "true" then Client.Json.Bool(true)
    else if s == "false" then Client.Json.Bool(false)
    else if s == "null" then Client.Null
    else
      match IntText(s)
      case Some(n) => Client.Int(n)
      case None => number(s)
  }

  function HostValue(number: Numbers, v: Value): Client.Json {
    match v
    case Str(s) => Client.Json.Str(s)
    case Bare(s) => BareValue(number, s)
  }

  /** A dict of these members; of a repeated key the last. */
  function Members(number: Numbers, ms: seq<Item>): map<string, Client.Json> {
    if ms == [] then map[]
    else Members(number, ms[..|ms| - 1])[ms[|ms| - 1].key := HostValue(number, ms[|ms| - 1].value)]
  }

  /** json.loads of one flat object; Null when it is none. */
  function Loads(number: Numbers, text: string): Client.Json {
    match Parse(text)
    case None => Client.Null
    case Some(ms) => Client.Object(Members(number, ms))
  }

  lemma MembersOne(number: Numbers, m: Item)
    ensures Members(number, [m]) == map[m.key := HostValue(number, m.value)]
  {
    assert [m][..0] == [];
  }

  lemma {:induction false} MembersConcat(number: Numbers, a: seq<Item>, b: seq<Item>)
    ensures Members(number, a + b) == Members(number, a) + Members(number, b)
  {
    if b == [] {
      assert a + b == a;
    } else {
      assert (a + b)[..|a + b| - 1] == a + b[..|b| - 1];
      MembersConcat(number, a, b[..|b| - 1]);
    }
  }

  // ----- numbers and truth values -----

  lemma NotAWord(number: Numbers, s: string, n: int)
    requires s != "" && s[0] !in ['t', 'f', 'n'] && IntText(s) == Some(n)
    ensures BareValue(number, s) == Client.Int(n)
  {
    assert "true"[0] == 't' && "false"[0] == 'f' && "null"[0] == 'n';
  }

  lemma DigitsRead(n: nat)
    ensures Text.Decimal(n) != "" && Text.IsDigit(Text.Decimal(n)[0]) && IntText(Text.Decimal(n)) == Some(n)
    ensures IntText("-" + Text.Decimal(n)) == Some(0 - n)
  {
    Text.DecimalReads(n);
    assert ("-" + Text.Decimal(n))[1..] == Text.Decimal(n);
  }

  lemma IntReads(number: Numbers, v: int)
    ensures BareValue(number, Text.SignedDecimal(v)) == Client.Int(v)
  {
    DigitsRead(if v < 0 then 0 - v else v);
    NotAWord(number, Text.SignedDecimal(v), v);
  }

  /** What the host reads from the nine digits of a binary32. */
  function Shown(c: Text.Libc, number: Numbers): Discover.Shown {
    (bits: uint32) => BareValue(number, c.precise(bits))
  }

  /** The printed value is read as the register's number, a truth value, or null for a float that is no number. */
  lemma ValueReadsAs(c: Text.Libc, number: Numbers, ty: RegType, raw: uint32)
    ensures BareValue(number, ValueJson(c, ty, raw)) == Discover.ValueJson(Shown(c, number), ty, raw)
  {
    match ty
    case Bool =>
    case Float =>
    case U8 | U16 | U32 => IntReads(number, raw);
    case I8 | I16 | I32 => IntReads(number, Signed(raw));
  }

  lemma ValueOk(c: Text.Libc, ty: RegType, raw: uint32)
    requires PrintsNumbers(c)
    ensures BareOk(ValueJson(c, ty, raw))
  {
    NumberOk(raw);
    NumberOk(if Signed(raw) < 0 then 0 - Signed(raw) else Signed(raw));
    NoStop("null");
    NoStop("true");
    NoStop("false");
  }

  // ----- objects of one member -----

  lemma SingleReads(number: Numbers, key: string, v: Value, text: string)
    requires CText(key) && PlainText(key) && ItemOk(Item(key, v))
    requires text == "{\"" + key + "\":" + ValueText(v) + "}"
    ensures Loads(number, text) == Client.Object(map[key := HostValue(number, v)])
  {
    var item := Item(key, v);
    OpeningItem(key, v);
    assert More([]) == "" && "" + "}" == "}";
    ParseRender(item, []);
    assert [item] + [] == [item];
    MembersOne(number, item);
  }

  lemma ErrorReads(number: Numbers, message: string)
    requires CText(message)
    ensures Loads(number, ErrorJson(message)) == Client.Object(map["error" := Client.Json.Str(message)])
  {
    ErrorKey();
    SingleReads(number, "error", Str(message), ErrorJson(message));
  }

  lemma ErrorKey()
    ensures "{\"" + "error" + "\":" == "{\"error\":" && CText("error") && PlainText("error")
  {
  }

  lemma ResultReads(number: Numbers)
    ensures Loads(number, ResultJson(Ok)) == Client.Object(map["result" := Client.Json.Str("OK")])
  {
    ResultKey();
    Quoted("OK");
    SingleReads(number, "result", Str("OK"), ResultJson(Ok));
  }

  lemma ResultKey()
    ensures "{\"" + "result" + "\":" + "\"OK\"" + "}" == "{\"result\":\"OK\"}" && "\"" + "OK" + "\"" == "\"OK\""
    ensures CText("result") && PlainText("result") && CText("OK") && PlainText("OK")
  {
  }

  lemma GetReads(c: Text.Libc, number: Numbers, ty: RegType, raw: uint32)
    requires PrintsNumbers(c)
    ensures Loads(number, GetJson(c, ty, raw))
         == Client.Object(map["value" := Discover.ValueJson(Shown(c, number), ty, raw)])
  {
    ValueKey();
    ValueOk(c, ty, raw);
    SingleReads(number, "value", Bare(ValueJson(c, ty, raw)), GetJson(c, ty, raw));
    ValueReadsAs(c, number, ty, raw);
  }

  lemma ValueKey()
    ensures "{\"" + "value" + "\":" == "{\"value\":" && CText("value") && PlainText("value")
  {
  }

  // ----- one register -----

  function ValueItem(c: Text.Libc, e: Entry, raw: uint32): Item {
    Item("value", Bare(ValueJson(c, e.rtype, raw)))
  }

  function MiddleItems(c: Text.Libc, e: Entry, raw: uint32): seq<Item> {
    [ValueItem(c, e, raw)] + RangeItems(c, e) + ModbusItems(e)
  }

  /** What follows the name in a listed register. */
  function EntryItems(c: Text.Libc, e: Entry, raw: uint32): seq<Item> {
    KindItems(e) + MiddleItems(c, e, raw) + DescItems(e, e.description.Some?)
  }

  lemma MiddleItemsText(c: Text.Libc, e: Entry, raw: uint32)
    ensures More(MiddleItems(c, e, raw))
         == ",\"value\":" + ValueJson(c, e.rtype, raw) + M.RangeText(c, e) + M.ModbusText(e)
  {
    MoreConcat([ValueItem(c, e, raw)] + RangeItems(c, e), ModbusItems(e));
    MoreConcat([ValueItem(c, e, raw)], RangeItems(c, e));
    ValueMore(ValueJson(c, e.rtype, raw));
    RangeItemsText(c, e);
    ModbusItemsText(e);
  }

  lemma ValueMore(text: string)
    ensures More([Item("value", Bare(text))]) == ",\"value\":" + text
  {
    MoreOne(Item("value", Bare(text)));
    assert ",\"" + "value" + "\":" == ",\"value\":";
  }

  lemma DescMore(e: Entry)
    ensures More(DescItems(e, e.description.Some?)) == DescJson(e)
  {
    if e.description.Some? { DescItemsText(e); }
  }

  lemma EntryRendered(c: Text.Libc, e: Entry, raw: uint32)
    ensures EntryJson(c, e, raw) == Render(NameItem(e), EntryItems(c, e, raw))
  {
    var kind, middle, end := KindItems(e), MiddleItems(c, e, raw), DescItems(e, e.description.Some?);
    HeadItemsText(e);
    MiddleItemsText(c, e, raw);
    DescMore(e);
    MoreConcat(kind + middle, end);
    MoreConcat(kind, middle);
    Regrouped("{" + ItemText(NameItem(e)), More(kind), More(middle), More(end), "}");
  }

  lemma EntryItemsOk(c: Text.Libc, e: Entry, raw: uint32)
    requires CEntry(e) && PrintsNumbers(c)
    ensures ItemOk(NameItem(e)) && AllOk(EntryItems(c, e, raw))
  {
    KindOk(e);
    TailOk(c, e, 0);
    ValueOk(c, e.rtype, raw);
    ValueKey();
    EndOk(e, e.description.Some?, 0);
    AllOkConcat([ValueItem(c, e, raw)], RangeItems(c, e));
    AllOkConcat([ValueItem(c, e, raw)] + RangeItems(c, e), ModbusItems(e));
    AllOkConcat(KindItems(e), MiddleItems(c, e, raw));
    AllOkConcat(KindItems(e) + MiddleItems(c, e, raw), DescItems(e, e.description.Some?));
  }

  lemma EntryParses(c: Text.Libc, e: Entry, raw: uint32)
    requires CEntry(e) && PrintsNumbers(c)
    ensures Parse(EntryJson(c, e, raw)) == Some([NameItem(e)] + EntryItems(c, e, raw))
  {
    EntryRendered(c, e, raw);
    EntryItemsOk(c, e, raw);
    ParseRender(NameItem(e), EntryItems(c, e, raw));
  }

  // ----- as a dict -----

  lemma LimitReadsAs(c: Text.Libc, number: Numbers, key: string, ty: RegType, limit: uint32)
    ensures HostValue(number, LimitItem(c, key, ty, limit).value)
         == Discover.NumberJson(Shown(c, number), ty, limit)
  {
    IntReads(number, limit);
    IntReads(number, Signed(limit));
  }

  function RangeMembers(c: Text.Libc, number: Numbers, e: Entry): map<string, Client.Json> {
    if HasRange(e) then
      map["min" := Discover.NumberJson(Shown(c, number), e.rtype, e.min),
          "max" := Discover.NumberJson(Shown(c, number), e.rtype, e.max)]
    else map[]
  }

  lemma RangeReads(c: Text.Libc, number: Numbers, e: Entry)
    ensures Members(number, RangeItems(c, e)) == RangeMembers(c, number, e)
  {
    if HasRange(e) {
      var a, b := LimitItem(c, "min", e.rtype, e.min), LimitItem(c, "max", e.rtype, e.max);
      assert [a] + [b] == RangeItems(c, e);
      MembersConcat(number, [a], [b]);
      MembersOne(number, a);
      MembersOne(number, b);
      LimitReadsAs(c, number, "min", e.rtype, e.min);
      LimitReadsAs(c, number, "max", e.rtype, e.max);
    }
  }

  lemma ModbusReads(number: Numbers, e: Entry)
    ensures Members(number, ModbusItems(e))
         == if e.modbusAddr != 0 then map["modbus" := Client.Int(e.modbusAddr)] else map[]
  {
    if e.modbusAddr != 0 {
      MembersOne(number, NumberItem("modbus", e.modbusAddr));
      IntReads(number, e.modbusAddr);
    }
  }

  lemma DescReads(number: Numbers, e: Entry)
    ensures Members(number, DescItems(e, e.description.Some?))
         == if e.description.Some? then map["desc" := Client.Json.Str(e.description.value)] else map[]
  {
    if e.description.Some? { MembersOne(number, DescItems(e, true)[0]); }
  }

  lemma HeadReads(c: Text.Libc, number: Numbers, e: Entry, raw: uint32)
    ensures Members(number, [NameItem(e)] + KindItems(e) + [ValueItem(c, e, raw)])
         == map["name" := Client.Json.Str(e.name), "type" := Client.Json.Str(M.TypeName(e.rtype)),
                "perm" := Client.Json.Str(if e.perm == RO then "RO" else "RW"),
                "value" := Discover.ValueJson(Shown(c, number), e.rtype, raw)]
  {
    var kind := KindItems(e);
    assert kind == [kind[0], kind[1]];
    FourMembers(number, NameItem(e), kind[0], kind[1], ValueItem(c, e, raw));
    ValueReadsAs(c, number, e.rtype, raw);
  }

  lemma FourMembers(number: Numbers, a: Item, b: Item, c: Item, d: Item)
    ensures Members(number, [a] + [b, c] + [d])
         == map[a.key := HostValue(number, a.value), b.key := HostValue(number, b.value),
                c.key := HostValue(number, c.value), d.key := HostValue(number, d.value)]
  {
    assert [a] + [b, c] + [d] == [a] + [b] + [c] + [d];
    MembersOne(number, a);
    MembersNext(number, [a], b);
    MembersNext(number, [a] + [b], c);
    MembersNext(number, [a] + [b] + [c], d);
  }

  lemma MembersNext(number: Numbers, ms: seq<Item>, m: Item)
    ensures Members(number, ms + [m]) == Members(number, ms)[m.key := HostValue(number, m.value)]
  {
    assert (ms + [m])[..|ms|] == ms;
  }

  lemma EntryPieces(a: seq<Item>, kind: seq<Item>, v: seq<Item>, range: seq<Item>, modbus: seq<Item>, desc: seq<Item>)
    ensures a + (kind + (v + range + modbus) + desc) == a + kind + v + range + modbus + desc
  {
  }

  /** The line `info --json` prints, and each element of the list: the host reads exactly the register's name, type,
      permission and value, and its limits, Modbus address and description as far as it has them. */
  lemma EntryReads(c: Text.Libc, number: Numbers, e: Entry, raw: uint32)
    requires CEntry(e) && PrintsNumbers(c)
    ensures Loads(number, EntryJson(c, e, raw)) == Discover.EntryJson(Shown(c, number), e, raw)
  {
    EntryParses(c, e, raw);
    var head := [NameItem(e)] + KindItems(e) + [ValueItem(c, e, raw)];
    EntryPieces([NameItem(e)], KindItems(e), [ValueItem(c, e, raw)], RangeItems(c, e), ModbusItems(e),
                DescItems(e, e.description.Some?));
    MembersConcat(number, head + RangeItems(c, e) + ModbusItems(e), DescItems(e, e.description.Some?));
    MembersConcat(number, head + RangeItems(c, e), ModbusItems(e));
    MembersConcat(number, head, RangeItems(c, e));
    HeadReads(c, number, e, raw);
    RangeReads(c, number, e);
    ModbusReads(number, e);
    DescReads(number, e);
  }
}
