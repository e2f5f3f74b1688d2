/** Every payload of the self-description is a flat JSON object, and reading it gives back exactly the entry
    it describes. */
module MqttReadable {
  import opened Words
  import opened Registers
  import opened Fingerprint
  import opened JsonObject
  import opened MqttMeta
  import Float32
  import Json
  import Seqs
  import Text

  /** %.9g of a finite float is a JSON number: it contains no comma, brace or quote. */
  ghost predicate PrintsNumbers(c: Text.Libc) {
    forall bits: uint32 :: Float32.IsFinite(bits) ==> BareOk(c.precise(bits))
  }

  // ----- the members -----

  function NumberItem(key: string, n: nat): Item {
    Item(key, Bare(Text.Decimal(n)))
  }

  function LimitItem(c: Text.Libc, key: string, ty: RegType, limit: uint32): Item {
    Item(key, Bare(if IsSigned(ty) then Text.SignedDecimal(Signed(limit))
                   else if ty != Float then Text.Decimal(limit)
                   else if Float32.IsFinite(limit) then c.precise(limit) else "null"))
  }

  function RangeItems(c: Text.Libc, e: Entry): seq<Item> {
    if e.min != 0 || e.max != 0 then [LimitItem(c, "min", e.rtype, e.min), LimitItem(c, "max", e.rtype, e.max)] else []
  }

  function ModbusItems(e: Entry): seq<Item> {
    if e.modbusAddr != 0 then [NumberItem("modbus", e.modbusAddr)] else []
  }

  function DescItems(e: Entry, withDesc: bool): seq<Item> {
    if withDesc then [Item("desc", Str(Description(e)))] else []
  }

  function SchemaItem(fp: uint32): Item {
    Item("schema", Str(Hex8(fp)))
  }

  function NameItem(e: Entry): Item {
    Item("name", Str(e.name))
  }

  /** What follows the name in one entry's metadata. */
  function MetaItems(c: Text.Libc, e: Entry, index: nat, withDesc: bool, fp: uint32): seq<Item> {
    KindItems(e) + ([NumberItem("index", index)] + RangeItems(c, e) + ModbusItems(e)) + DescItems(e, withDesc)
    + [SchemaItem(fp)]
  }

  function KindItems(e: Entry): seq<Item> {
    [Item("type", Str(TypeName(e.rtype))), Item("perm", Str(if e.perm == RO then "RO" else "RW"))]
  }

  // ----- texts as members -----

  predicate PlainText(s: string) {
    forall k :: 0 <= k < |s| ==> Json.Plain(s[k])
  }

  lemma MoreOne(m: Item)
    requires PlainText(m.key)
    ensures More([m]) == ",\"" + m.key + "\":" + ValueText(m.value)
  {
    Json.PlainBody(m.key);
    MoreIs(m);
    Pieces(m.key, ValueText(m.value));
  }

  lemma MoreIs(m: Item)
    ensures More([m]) == "," + ItemText(m)
  {
    assert [m][1..] == [];
    assert "," + ItemText(m) + "" == "," + ItemText(m);
  }

  lemma Pieces(key: string, v: string)
    ensures "," + ("\"" + key + "\"" + (":" + v)) == ",\"" + key + "\":" + v
  {
    Around(",", "\"", key, ":", v);
    assert "," + "\"" == ",\"" && "\"" + ":" == "\":";
  }

  lemma MoreTwo(a: Item, b: Item)
    requires PlainText(a.key) && PlainText(b.key)
    ensures More([a, b]) == ",\"" + a.key + "\":" + ValueText(a.value) + (",\"" + b.key + "\":" + ValueText(b.value))
  {
    MoreConcat([a], [b]);
    MoreOne(a);
    MoreOne(b);
    assert [a] + [b] == [a, b];
  }

  lemma NumberText(key: string, n: nat)
    requires PlainText(key)
    ensures More([NumberItem(key, n)]) == ",\"" + key + "\":" + Text.Decimal(n)
  {
    MoreOne(NumberItem(key, n));
  }

  lemma IndexItems(index: nat)
    ensures More([NumberItem("index", index)]) == IndexText(index)
  {
    NumberText("index", index);
    assert ",\"" + "index" + "\":" == ",\"index\":";
  }

  lemma ModbusItemsText(e: Entry)
    ensures More(ModbusItems(e)) == ModbusText(e)
  {
    if e.modbusAddr != 0 {
      NumberText("modbus", e.modbusAddr);
      assert ",\"" + "modbus" + "\":" == ",\"modbus\":";
    }
  }

  lemma RangeItemsText(c: Text.Libc, e: Entry)
    ensures More(RangeItems(c, e)) == RangeText(c, e)
  {
    if HasRange(e) {
      var a, b := LimitItem(c, "min", e.rtype, e.min), LimitItem(c, "max", e.rtype, e.max);
      MoreTwo(a, b);
      assert ",\"" + "min" + "\":" == ",\"min\":";
      assert ",\"" + "max" + "\":" == ",\"max\":";
      Seqs.Assoc(",\"min\":" + a.value.text, ",\"max\":", b.value.text);
    }
  }

  lemma DescItemsText(e: Entry)
    ensures More(DescItems(e, true)) == DescText(Description(e))
  {
    MoreOne(DescItems(e, true)[0]);
    assert ",\"" + "desc" + "\":" == ",\"desc\":";
  }

  lemma SchemaItemText(fp: uint32)
    ensures More([SchemaItem(fp)]) + "}" == Trailer(fp)
  {
    SchemaMore(fp);
    Closed(",\"schema\":", "\"", Hex8(fp), "}");
    SchemaEdges();
  }

  lemma SchemaEdges()
    ensures ",\"schema\":" + "\"" == ",\"schema\":\"" && "\"" + "}" == "\"}"
  {
  }

  lemma SchemaMore(fp: uint32)
    ensures More([SchemaItem(fp)]) == ",\"schema\":" + ("\"" + Hex8(fp) + "\"")
  {
    MoreOne(SchemaItem(fp));
    SchemaKey();
    HexIsText(fp);
    Json.PlainBody(Hex8(fp));
  }

  lemma SchemaKey()
    ensures ",\"" + "schema" + "\":" == ",\"schema\":"
  {
  }

  lemma Closed(key: string, quote: string, value: string, brace: string)
    ensures key + (quote + value + quote) + brace == (key + quote) + value + (quote + brace)
  {
  }

  lemma OpeningItem(key: string, v: Value)
    requires PlainText(key)
    ensures "{" + ItemText(Item(key, v)) == "{\"" + key + "\":" + ValueText(v)
  {
    Json.PlainBody(key);
    Around("{", "\"", key, ":", ValueText(v));
    assert "{" + "\"" == "{\"" && "\"" + ":" == "\":";
  }

  lemma Around(open: string, quote: string, key: string, colon: string, value: string)
    ensures open + ((quote + key + quote) + (colon + value)) == ((open + quote) + key + (quote + colon)) + value
  {
  }

  lemma HeadItemsText(e: Entry)
    ensures "{" + ItemText(NameItem(e)) + More(KindItems(e)) == HeadText(e)
  {
    OpeningItem("name", Str(e.name));
    assert "{\"" + "name" + "\":" == "{\"name\":";
    KindItemsText(e);
    Seqs.Assoc(Member("{\"name\":", e.name), Member(",\"type\":", TypeName(e.rtype)), ",\"perm\":" + PermName(e.perm));
  }

  lemma KindItemsText(e: Entry)
    ensures More(KindItems(e)) == Member(",\"type\":", TypeName(e.rtype)) + (",\"perm\":" + PermName(e.perm))
  {
    MoreTwo(KindItems(e)[0], KindItems(e)[1]);
    KindKeys();
    PermText(e.perm);
  }

  lemma KindKeys()
    ensures ",\"" + "type" + "\":" == ",\"type\":" && ",\"" + "perm" + "\":" == ",\"perm\":"
  {
  }

  lemma PermText(p: RegPerm)
    ensures PermName(p) == Json.JsonString(if p == RO then "RO" else "RW")
  {
    var name := if p == RO then "RO" else "RW";
    Quoted(name);
    assert PermName(p) == "\"" + name + "\"";
  }

  lemma Quoted(s: string)
    requires PlainText(s)
    ensures Json.JsonString(s) == "\"" + s + "\""
  {
    Json.PlainBody(s);
  }

  lemma TailItemsText(c: Text.Libc, e: Entry, index: nat)
    ensures More([NumberItem("index", index)] + RangeItems(c, e) + ModbusItems(e))
         == IndexText(index) + RangeText(c, e) + ModbusText(e)
  {
    MoreConcat([NumberItem("index", index)] + RangeItems(c, e), ModbusItems(e));
    MoreConcat([NumberItem("index", index)], RangeItems(c, e));
    IndexItems(index);
    RangeItemsText(c, e);
    ModbusItemsText(e);
  }

  function DescPart(e: Entry, withDesc: bool): string {
    if withDesc then DescText(Description(e)) else ""
  }

  /** What follows head and tail. */
  lemma EndItemsText(e: Entry, withDesc: bool, fp: uint32)
    ensures More(DescItems(e, withDesc) + [SchemaItem(fp)]) + "}" == DescPart(e, withDesc) + Trailer(fp)
  {
    MoreConcat(DescItems(e, withDesc), [SchemaItem(fp)]);
    if withDesc { DescItemsText(e); }
    SchemaItemText(fp);
    Seqs.Assoc(More(DescItems(e, withDesc)), More([SchemaItem(fp)]), "}");
  }

  lemma MetaTextItems(c: Text.Libc, e: Entry, index: nat, withDesc: bool, fp: uint32)
    ensures Render(NameItem(e), MetaItems(c, e, index, withDesc, fp))
         == MetaText(c, e, index) + (DescPart(e, withDesc) + Trailer(fp))
  {
    var kind, tail, end := KindItems(e), [NumberItem("index", index)] + RangeItems(c, e) + ModbusItems(e),
                           DescItems(e, withDesc) + [SchemaItem(fp)];
    HeadItemsText(e);
    TailItemsText(c, e, index);
    EndItemsText(e, withDesc, fp);
    assert MetaItems(c, e, index, withDesc, fp) == kind + tail + end;
    MoreConcat(kind + tail, end);
    MoreConcat(kind, tail);
    Regrouped("{" + ItemText(NameItem(e)), More(kind), More(tail), More(end), "}");
  }

  lemma Regrouped(a: string, b: string, c: string, d: string, e: string)
    ensures a + (b + c + d + e) == (a + b) + c + (d + e)
  {
    Seqs.Assoc(b + c, d, e);
    Seqs.Assoc(a, b + c, d + e);
    Seqs.Assoc(a, b, c);
  }

  // ----- reading a payload -----

  lemma {:induction false} NoStop(s: string)
    requires forall k :: 0 <= k < |s| ==> s[k] != ',' && s[k] != '}'
    ensures BareEnd(s) == |s|
  {
    if s != "" { NoStop(s[1..]); }
  }

  lemma NumberOk(n: nat)
    ensures BareOk(Text.Decimal(n)) && BareOk("-" + Text.Decimal(n))
  {
    Text.DecimalReads(n);
    NoStop(Text.Decimal(n));
    NoStop("-" + Text.Decimal(n));
  }

  lemma LimitOk(c: Text.Libc, key: string, ty: RegType, limit: uint32)
    requires CText(key) && PrintsNumbers(c)
    ensures ItemOk(LimitItem(c, key, ty, limit))
  {
    NumberOk(limit);
    NumberOk(if Signed(limit) < 0 then -Signed(limit) else Signed(limit));
    NoStop("null");
  }

  lemma KindOk(e: Entry)
    requires CEntry(e)
    ensures ItemOk(NameItem(e)) && AllOk(KindItems(e))
  {
    assert CText("name");
    TypeOk(e.rtype);
    PermOk(e.perm);
    var kind := KindItems(e);
    assert ItemOk(kind[0]) && ItemOk(kind[1]);
  }

  lemma TypeOk(ty: RegType)
    ensures ItemOk(Item("type", Str(TypeName(ty))))
  {
    assert CText("type");
  }

  lemma PermOk(p: RegPerm)
    ensures ItemOk(Item("perm", Str(if p == RO then "RO" else "RW")))
  {
    assert CText("perm");
  }

  lemma TailOk(c: Text.Libc, e: Entry, index: nat)
    requires PrintsNumbers(c)
    ensures AllOk([NumberItem("index", index)]) && AllOk(RangeItems(c, e)) && AllOk(ModbusItems(e))
  {
    NumberOk(index);
    NumberOk(e.modbusAddr);
    LimitOk(c, "min", e.rtype, e.min);
    LimitOk(c, "max", e.rtype, e.max);
  }

  lemma EndOk(e: Entry, withDesc: bool, fp: uint32)
    requires CEntry(e)
    ensures AllOk(DescItems(e, withDesc)) && AllOk([SchemaItem(fp)])
  {
    DescOk(e);
    SchemaOk(fp);
  }

  lemma DescOk(e: Entry)
    requires CEntry(e)
    ensures ItemOk(Item("desc", Str(Description(e))))
  {
    assert CText("desc");
  }

  lemma ItemsOk(c: Text.Libc, e: Entry, index: nat, withDesc: bool, fp: uint32)
    requires CEntry(e) && PrintsNumbers(c)
    ensures ItemOk(NameItem(e)) && AllOk(MetaItems(c, e, index, withDesc, fp))
  {
    KindOk(e);
    TailOk(c, e, index);
    EndOk(e, withDesc, fp);
    AllOkConcat([NumberItem("index", index)], RangeItems(c, e));
    AllOkConcat([NumberItem("index", index)] + RangeItems(c, e), ModbusItems(e));
    var tail := [NumberItem("index", index)] + RangeItems(c, e) + ModbusItems(e);
    AllOkConcat(KindItems(e), tail);
    AllOkConcat(KindItems(e) + tail, DescItems(e, withDesc));
    AllOkConcat(KindItems(e) + tail + DescItems(e, withDesc), [SchemaItem(fp)]);
  }

  lemma AllOkConcat(a: seq<Item>, b: seq<Item>)
    requires AllOk(a) && AllOk(b)
    ensures AllOk(a + b)
  {
  }

  /** Whether the description is in the payload. */
  function Described(c: Text.Libc, e: Entry, index: nat, metaSize: nat): bool {
    e.description.Some? && |MetaText(c, e, index)| + |DescText(e.description.value)| < metaSize - TRAILER_LEN
  }

  /** A meta payload reads back as its entry: name, type, permission, index, limits, Modbus address, the
      description in full if it is there, the fingerprint. */
  lemma MetaReads(c: Text.Libc, e: Entry, index: nat, fp: uint32, metaSize: nat)
    requires CEntry(e) && PrintsNumbers(c)
    ensures Parse(MetaPayload(c, e, index, fp, metaSize))
         == Some([NameItem(e)] + MetaItems(c, e, index, Described(c, e, index, metaSize), fp))
  {
    var withDesc := Described(c, e, index, metaSize);
    MetaTextItems(c, e, index, withDesc, fp);
    ItemsOk(c, e, index, withDesc, fp);
    ParseRender(NameItem(e), MetaItems(c, e, index, withDesc, fp));
    Seqs.Assoc(MetaText(c, e, index), DescPart(e, withDesc), Trailer(fp));
  }

  lemma DescriptorRendered(count: nat, fp: uint32)
    ensures DescriptorText(count, fp) == Render(NumberItem("count", count), [SchemaItem(fp)])
  {
    OpeningItem("count", NumberItem("count", count).value);
    assert "{\"" + "count" + "\":" == "{\"count\":";
    SchemaItemText(fp);
    Seqs.Assoc4("{\"count\":" + Text.Decimal(count), ",\"schema\":\"", Hex8(fp), "\"}");
  }

  /** The descriptor reads back as count and fingerprint. */
  lemma DescriptorReads(count: nat, fp: uint32)
    ensures Parse(DescriptorText(count, fp)) == Some([NumberItem("count", count), SchemaItem(fp)])
  {
    DescriptorRendered(count, fp);
    DescriptorItemsOk(count, fp);
    ParseRender(NumberItem("count", count), [SchemaItem(fp)]);
    assert [NumberItem("count", count)] + [SchemaItem(fp)] == [NumberItem("count", count), SchemaItem(fp)];
  }

  lemma DescriptorItemsOk(count: nat, fp: uint32)
    ensures ItemOk(NumberItem("count", count)) && AllOk([SchemaItem(fp)])
  {
    NumberOk(count);
    SchemaOk(fp);
    assert CText("count");
  }

  lemma SchemaOk(fp: uint32)
    ensures ItemOk(SchemaItem(fp))
  {
    HexIsText(fp);
    assert CText("schema");
  }

  lemma HexIsText(fp: uint32)
    ensures CText(Hex8(fp)) && PlainText(Hex8(fp))
  {
    Hex4IsText(fp / 0x1_0000);
    Hex4IsText(fp % 0x1_0000);
  }

  lemma Hex4IsText(n: uint16)
    ensures CText(Hex4(n)) && PlainText(Hex4(n))
  {
    Hex2IsText(n / 0x100);
    Hex2IsText(n % 0x100);
  }

  lemma Hex2IsText(n: uint8)
    ensures CText(Hex2(n)) && PlainText(Hex2(n))
  {
  }

  lemma HexAfter(s: string, d: nat)
    requires d < 16
    ensures Text.NumberOf(s + [Json.HexDigit(d)], 16) == 16 * Text.NumberOf(s, 16) + d
  {
    var longer := s + [Json.HexDigit(d)];
    assert longer[..|longer| - 1] == s;
  }

  lemma Hex2After(s: string, n: uint8)
    ensures Text.NumberOf(s + Hex2(n), 16) == 256 * Text.NumberOf(s, 16) + n
  {
    HexAfter(s, n / 16);
    HexAfter(s + [Json.HexDigit(n / 16)], n % 16);
    assert s + Hex2(n) == s + [Json.HexDigit(n / 16)] + [Json.HexDigit(n % 16)];
  }

  lemma Hex4After(s: string, n: uint16)
    ensures Text.NumberOf(s + Hex4(n), 16) == 65536 * Text.NumberOf(s, 16) + n
  {
    Hex2After(s, n / 0x100);
    Hex2After(s + Hex2(n / 0x100), n % 0x100);
    Seqs.Assoc(s, Hex2(n / 0x100), Hex2(n % 0x100));
  }

  predicate LowerHex(s: string) {
    forall k :: 0 <= k < |s| ==> '0' <= s[k] <= '9' || 'a' <= s[k] <= 'f'
  }

  lemma Hex4Lower(n: uint16)
    ensures LowerHex(Hex4(n))
  {
    LowerConcat(Hex2(n / 0x100), Hex2(n % 0x100));
  }

  lemma LowerConcat(a: string, b: string)
    requires LowerHex(a) && LowerHex(b)
    ensures LowerHex(a + b)
  {
  }

  /** A fingerprint in eight lower-case hexadecimal digits reads as the number it is. */
  lemma Hex8Reads(n: uint32)
    ensures |Hex8(n)| == 8 && Text.NumberOf(Hex8(n), 16) == n && LowerHex(Hex8(n))
  {
    var high, low := n / 0x1_0000, n % 0x1_0000;
    Hex4After("", high);
    Hex4After(Hex4(high), low);
    assert "" + Hex4(high) == Hex4(high);
    Hex4Lower(high);
    Hex4Lower(low);
    LowerConcat(Hex4(high), Hex4(low));
  }

  // ----- the identity -----

  /** A string that is there. */
  function StringItem(key: string, value: Option<string>): seq<Item> {
    if value.Some? then [Item(key, Str(value.value))] else []
  }

  function StringItems(id: Identity): seq<Item> {
    StringItem("device", id.device) + StringItem("fw", id.fw) + StringItem("hash", id.hash)
    + StringItem("chip", id.chip)
  }

  function BuiltItem(built: string): Item {
    Item("built", Str(built))
  }

  /** What follows. */
  function BuildItems(count: nat, fp: uint32): seq<Item> {
    [Item("regtable", Str("0.1.0")), NumberItem("regs", count), SchemaItem(fp)]
  }

  /** The items before the last, each with its comma. */
  function Led(ms: seq<Item>): string {
    if ms == [] then "" else ItemText(ms[0]) + "," + Led(ms[1..])
  }

  lemma {:induction false} LedConcat(a: seq<Item>, b: seq<Item>)
    ensures Led(a + b) == Led(a) + Led(b)
  {
    if a == [] {
      assert a + b == b;
    } else {
      assert (a + b)[1..] == a[1..] + b;
      LedConcat(a[1..], b);
    }
  }

  /** Commas behind or before: the same text. */
  lemma {:induction false} LedIsMore(ms: seq<Item>, last: Item, rest: seq<Item>, first: Item, others: seq<Item>)
    requires ms + [last] + rest == [first] + others
    ensures Led(ms) + (ItemText(last) + More(rest)) == ItemText(first) + More(others)
    decreases |ms|
  {
    if ms == [] {
      assert [last] + rest == [first] + others;
      assert ([last] + rest)[0] == last && ([last] + rest)[1..] == rest && ([first] + others)[1..] == others;
    } else {
      assert (ms + [last] + rest)[0] == ms[0] && (ms + [last] + rest)[1..] == ms[1..] + [last] + rest;
      assert ([first] + others)[0] == first && ([first] + others)[1..] == others;
      var next := (ms[1..] + [last])[0];
      assert others[0] == next && others == [next] + others[1..];
      LedIsMore(ms[1..], last, rest, next, others[1..]);
      Moved(ItemText(first), Led(ms[1..]), ItemText(last) + More(rest), ItemText(next), More(others[1..]));
    }
  }

  lemma Moved(a: string, b: string, c: string, d: string, e: string)
    requires b + c == d + e
    ensures a + "," + b + c == a + ("," + d + e)
  {
    Seqs.Assoc(a + ",", b, c);
    Seqs.Assoc(a, ",", d + e);
    Seqs.Assoc(",", d, e);
  }

  lemma FieldLed(key: string, opening: string, value: Option<string>)
    requires PlainText(key) && opening == "\"" + key + "\"" + ":"
    ensures FieldText(opening, value) == Led(StringItem(key, value))
  {
    if value.Some? {
      var item := Item(key, Str(value.value));
      Quoted(key);
      Seqs.Assoc("\"" + key + "\"", ":", Json.JsonString(value.value));
      LedOne(item);
    }
  }

  lemma LedOne(m: Item)
    ensures Led([m]) == ItemText(m) + ","
  {
    assert [m][1..] == [];
    assert ItemText(m) + "," + "" == ItemText(m) + ",";
  }

  lemma StringsLed(id: Identity)
    ensures StringsText(id) == Led(StringItems(id))
  {
    DeviceLed(id.device);
    FwLed(id.fw);
    HashLed(id.hash);
    ChipLed(id.chip);
    StringsConcat(StringItem("device", id.device), StringItem("fw", id.fw), StringItem("hash", id.hash),
                  StringItem("chip", id.chip));
  }

  lemma DeviceLed(value: Option<string>)
    ensures FieldText("\"device\":", value) == Led(StringItem("device", value))
  {
    FieldLed("device", "\"device\":", value);
  }

  lemma FwLed(value: Option<string>)
    ensures FieldText("\"fw\":", value) == Led(StringItem("fw", value))
  {
    FieldLed("fw", "\"fw\":", value);
  }

  lemma HashLed(value: Option<string>)
    ensures FieldText("\"hash\":", value) == Led(StringItem("hash", value))
  {
    FieldLed("hash", "\"hash\":", value);
  }

  lemma ChipLed(value: Option<string>)
    ensures FieldText("\"chip\":", value) == Led(StringItem("chip", value))
  {
    FieldLed("chip", "\"chip\":", value);
  }

  lemma StringsConcat(a: seq<Item>, b: seq<Item>, c: seq<Item>, d: seq<Item>)
    ensures Led(a + b + c + d) == Led(a) + Led(b) + Led(c) + Led(d)
  {
    LedConcat(a + b + c, d);
    LedConcat(a + b, c);
    LedConcat(a, b);
  }

  /** The build's two members as items. */
  lemma BuildTextItems(built: string)
    requires PlainText(built)
    ensures BuildText(built) == ItemText(BuiltItem(built)) + More([Item("regtable", Str("0.1.0"))])
  {
    Quoted("built");
    Quoted(built);
    BuiltLiterals();
    MoreOne(Item("regtable", Str("0.1.0")));
    Quoted("0.1.0");
    BuiltPieces("\"built\"", ":", "\"", built, ",\"regtable\":", "\"0.1.0\"");
  }

  lemma BuiltLiterals()
    ensures "\"" + "built" + "\"" == "\"built\"" && "\"built\"" + ":" + "\"" == "\"built\":\""
    ensures ",\"" + "regtable" + "\":" == ",\"regtable\":" && "\"" + "0.1.0" + "\"" == "\"0.1.0\""
    ensures "\"" + ",\"regtable\":" + "\"0.1.0\"" == "\",\"regtable\":\"0.1.0\""
    ensures PlainText("built") && PlainText("regtable") && PlainText("0.1.0")
  {
  }

  lemma BuiltPieces(key: string, colon: string, quote: string, value: string, next: string, version: string)
    ensures (key + colon + quote) + value + (quote + next + version)
         == (key + (colon + (quote + value + quote))) + (next + version)
  {
  }

  lemma CountTextItems(count: nat, fp: uint32)
    ensures CountText(count, fp) == More([NumberItem("regs", count), SchemaItem(fp)]) + "}"
  {
    MoreConcat([NumberItem("regs", count)], [SchemaItem(fp)]);
    assert [NumberItem("regs", count)] + [SchemaItem(fp)] == [NumberItem("regs", count), SchemaItem(fp)];
    NumberText("regs", count);
    assert ",\"" + "regs" + "\":" == ",\"regs\":";
    SchemaItemText(fp);
    var regs := ",\"regs\":" + Text.Decimal(count);
    Seqs.Assoc(regs, More([SchemaItem(fp)]), "}");
    Seqs.Assoc4(regs, ",\"schema\":\"", Hex8(fp), "\"}");
  }

  /** Every member of $id: device, fw, hash and chip as far as they are set, each with its own string, then
      the build's. */
  function IdItems(id: Identity, built: string, count: nat, fp: uint32): seq<Item> {
    StringItems(id) + [BuiltItem(built)] + BuildItems(count, fp)
  }

  lemma IdSplit(id: Identity, built: string, count: nat, fp: uint32) returns (first: Item, rest: seq<Item>)
    ensures IdItems(id, built, count, fp) == [first] + rest
    ensures Led(StringItems(id)) + (ItemText(BuiltItem(built)) + More(BuildItems(count, fp)))
         == ItemText(first) + More(rest)
  {
    var all := IdItems(id, built, count, fp);
    first, rest := all[0], all[1..];
    assert all == [first] + rest;
    LedIsMore(StringItems(id), BuiltItem(built), BuildItems(count, fp), first, rest);
  }

  lemma BuildItemsText(count: nat, fp: uint32)
    ensures More(BuildItems(count, fp))
         == More([Item("regtable", Str("0.1.0"))]) + More([NumberItem("regs", count), SchemaItem(fp)])
  {
    var a, b := [Item("regtable", Str("0.1.0"))], [NumberItem("regs", count), SchemaItem(fp)];
    MoreConcat(a, b);
    assert a + b == BuildItems(count, fp);
  }

  lemma IdRendered(id: Identity, built: string, count: nat, fp: uint32) returns (first: Item, rest: seq<Item>)
    requires PlainText(built)
    ensures IdItems(id, built, count, fp) == [first] + rest
    ensures IdText(id, built, count, fp) == Render(first, rest)
  {
    first, rest := IdSplit(id, built, count, fp);
    StringsLed(id);
    BuildTextItems(built);
    CountTextItems(count, fp);
    BuildItemsText(count, fp);
    IdPieces(Led(StringItems(id)), ItemText(BuiltItem(built)), More([Item("regtable", Str("0.1.0"))]),
             More([NumberItem("regs", count), SchemaItem(fp)]), ItemText(first), More(rest));
  }

  lemma IdPieces(strings: string, built: string, version: string, numbers: string, first: string, rest: string)
    requires strings + (built + (version + numbers)) == first + rest
    ensures "{" + strings + (built + version) + (numbers + "}") == "{" + first + (rest + "}")
  {
    Seqs.Assoc(built, version, numbers);
    Seqs.Assoc(strings, built + version, numbers);
    Seqs.Assoc("{", strings, built + version);
    Seqs.Assoc("{" + (strings + (built + version)), numbers, "}");
    Seqs.Assoc("{", strings + (built + version), numbers);
    Seqs.Assoc("{", first, rest);
    Seqs.Assoc("{" + first, rest, "}");
  }

  lemma StringOk(key: string, value: Option<string>)
    requires CText(key) && COptional(value)
    ensures AllOk(StringItem(key, value))
  {
  }

  lemma StringsOk(id: Identity)
    requires CIdentity(id)
    ensures AllOk(StringItems(id))
  {
    assert CText("device") && CText("fw") && CText("hash") && CText("chip");
    StringOk("device", id.device);
    StringOk("fw", id.fw);
    StringOk("hash", id.hash);
    StringOk("chip", id.chip);
    AllOkConcat(StringItem("device", id.device), StringItem("fw", id.fw));
    AllOkConcat(StringItem("device", id.device) + StringItem("fw", id.fw), StringItem("hash", id.hash));
    AllOkConcat(StringItem("device", id.device) + StringItem("fw", id.fw) + StringItem("hash", id.hash),
                StringItem("chip", id.chip));
  }

  lemma BuildOk(built: string, count: nat, fp: uint32)
    requires CText(built)
    ensures AllOk([BuiltItem(built)]) && AllOk(BuildItems(count, fp))
  {
    assert CText("built") && CText("regtable") && CText("0.1.0") && CText("regs");
    NumberOk(count);
    SchemaOk(fp);
  }

  lemma IdItemsOk(id: Identity, built: string, count: nat, fp: uint32)
    requires CIdentity(id) && CText(built)
    ensures AllOk(IdItems(id, built, count, fp))
  {
    StringsOk(id);
    BuildOk(built, count, fp);
    AllOkConcat(StringItems(id), [BuiltItem(built)]);
    AllOkConcat(StringItems(id) + [BuiltItem(built)], BuildItems(count, fp));
  }

  lemma AllOkFirst(first: Item, rest: seq<Item>)
    requires AllOk([first] + rest)
    ensures ItemOk(first) && AllOk(rest)
  {
    var all := [first] + rest;
    assert all[0] == first && forall k :: 0 <= k < |rest| ==> rest[k] == all[k + 1];
  }

  /** $id reads back as the identity: every string that was set, under its own key, none that was not; when it was
      built; the library's version; how many registers there are; and the fingerprint. */
  lemma IdentityReads(id: Identity, built: string, count: nat, fp: uint32)
    requires CIdentity(id) && CText(built) && PlainText(built)
    ensures Parse(IdText(id, built, count, fp)) == Some(IdItems(id, built, count, fp))
  {
    var first, rest := IdRendered(id, built, count, fp);
    IdItemsOk(id, built, count, fp);
    AllOkFirst(first, rest);
    ParseRender(first, rest);
  }
}
