/** The MQTT self-description: the text of every retained metadata payload, and the routines that build
    them in a bounded buffer. Nothing is ever sent truncated. */
module MqttMeta {
  import opened Words
  import opened Registers
  import opened Fingerprint
  import opened Appender
  import Float32
  import Json
  import Text

  // ----- the texts -----

  function TypeName(ty: RegType): string {
    match ty
    case U8 => "U8" case U16 => "U16" case U32 => "U32" case I8 => "I8" case I16 => "I16" case I32 => "I32"
    case Float => "FLOAT" case Bool => "BOOL"
  }

  function PermName(p: RegPerm): string {
    if p == RO then "\"RO\"" else "\"RW\""
  }

  /** A float as JSON: %.9g, or null when it has no JSON form. */
  function FloatText(c: Text.Libc, bits: uint32): string {
    if Float32.IsFinite(bits) then c.precise(bits) else "null"
  }

  function RangeText(c: Text.Libc, e: Entry): string {
    if !HasRange(e) then ""
    else if IsSigned(e.rtype) then
      ",\"min\":" + Text.SignedDecimal(Signed(e.min)) + ",\"max\":" + Text.SignedDecimal(Signed(e.max))
    else if e.rtype == Float then ",\"min\":" + FloatText(c, e.min) + ",\"max\":" + FloatText(c, e.max)
    else ",\"min\":" + Text.Decimal(e.min) + ",\"max\":" + Text.Decimal(e.max)
  }

  function ModbusText(e: Entry): string {
    if e.modbusAddr != 0 then ",\"modbus\":" + Text.Decimal(e.modbusAddr) else ""
  }

  function IndexText(index: nat): string {
    ",\"index\":" + Text.Decimal(index)
  }

  /** One entry's metadata without description and trailer. */
  function MetaText(c: Text.Libc, e: Entry, index: nat): string {
    HeadText(e) + (IndexText(index) + RangeText(c, e) + ModbusText(e))
  }

  function HeadText(e: Entry): string {
    Member("{\"name\":", e.name) + Member(",\"type\":", TypeName(e.rtype)) + (",\"perm\":" + PermName(e.perm))
  }

  /** A key, with what precedes it, and a string value. */
  function Member(key: string, value: string): string {
    key + Json.JsonString(value)
  }

  function DescText(d: string): string {
    Member(",\"desc\":", d)
  }

  /** %08lx */
  function Hex8(n: uint32): (s: string)
    ensures |s| == 8
  {
    Hex4(n / 0x1_0000) + Hex4(n % 0x1_0000)
  }

  function Hex4(n: uint16): (s: string)
    ensures |s| == 4
  {
    Hex2(n / 0x100) + Hex2(n % 0x100)
  }

  function Hex2(n: uint8): (s: string)
    ensures |s| == 2
  {
    [Json.HexDigit(n / 16), Json.HexDigit(n % 16)]
  }

  const TRAILER_LEN := 21

  function Trailer(fp: uint32): (s: string)
    ensures |s| == TRAILER_LEN
  {
    ",\"schema\":\"" + Hex8(fp) + "\"}"
  }

  /** The description as it goes out: in full if body and description fit the buffer less the trailer's
      reserve, otherwise absent. */
  function SentDescription(c: Text.Libc, e: Entry, index: nat, metaSize: nat): string {
    match e.description
    case None => ""
    case Some(d) => if |MetaText(c, e, index)| + |DescText(d)| < metaSize - TRAILER_LEN then DescText(d) else ""
  }

  function MetaPayload(c: Text.Libc, e: Entry, index: nat, fp: uint32, metaSize: nat): string {
    MetaText(c, e, index) + SentDescription(c, e, index, metaSize) + Trailer(fp)
  }

  function DescriptorText(count: nat, fp: uint32): string {
    "{\"count\":" + Text.Decimal(count) + ",\"schema\":\"" + Hex8(fp) + "\"}"
  }

  /** The strings $id carries; absent ones are left out. */
  datatype Identity = Identity(device: Option<string>, fw: Option<string>, hash: Option<string>, chip: Option<string>)

  predicate COptional(s: Option<string>) {
    s.Some? ==> CText(s.value)
  }

  predicate CIdentity(id: Identity) {
    COptional(id.device) && COptional(id.fw) && COptional(id.hash) && COptional(id.chip)
  }

  const NO_IDENTITY := Identity(None, None, None, None)

  function FieldText(key: string, value: Option<string>): string {
    match value
    case None => ""
    case Some(s) => Member(key, s) + ","
  }

  /** `built` is the compiler's __DATE__ " " __TIME__. */
  function BuildText(built: string): string {
    "\"built\":\"" + built + "\",\"regtable\":\"0.1.0\""
  }

  function CountText(count: nat, fp: uint32): string {
    ",\"regs\":" + Text.Decimal(count) + ",\"schema\":\"" + Hex8(fp) + "\"}"
  }

  function IdText(id: Identity, built: string, count: nat, fp: uint32): string {
    "{" + StringsText(id) + BuildText(built) + CountText(count, fp)
  }

  function StringsText(id: Identity): string {
    FieldText("\"device\":", id.device) + FieldText("\"fw\":", id.fw) + FieldText("\"hash\":", id.hash)
    + FieldText("\"chip\":", id.chip)
  }

  // ----- building them in a buffer -----

  method PutFloat(a: Appender, c: Text.Libc, bits: uint32)
    requires a.Valid()
    modifies a`len, a`overflow, a.buf
    ensures a.Valid() && Wrote(old(a.View()), a.View(), FloatText(c, bits))
  {
    if !Float32.IsFinite(bits) { a.PutS("null"); } else { a.Print(c.precise(bits)); }
  }

  method PutRange(a: Appender, c: Text.Libc, e: Entry)
    requires a.Valid()
    modifies a`len, a`overflow, a.buf
    ensures a.Valid() && Wrote(old(a.View()), a.View(), RangeText(c, e))
  {
    if !HasRange(e) { WroteNothing(a.View()); return; }
    if IsSigned(e.rtype) {
      a.Print(",\"min\":" + Text.SignedDecimal(Signed(e.min)) + ",\"max\":" + Text.SignedDecimal(Signed(e.max)));
    } else if e.rtype == Float {
      a.PutS(",\"min\":");
      label Key:
      PutFloat(a, c, e.min);
      WroteThen(old(a.View()), old@Key(a.View()), a.View(), ",\"min\":", FloatText(c, e.min));
      label Min:
      a.PutS(",\"max\":");
      WroteThen(old(a.View()), old@Min(a.View()), a.View(), ",\"min\":" + FloatText(c, e.min), ",\"max\":");
      label Max:
      PutFloat(a, c, e.max);
      WroteThen(old(a.View()), old@Max(a.View()), a.View(), ",\"min\":" + FloatText(c, e.min) + ",\"max\":",
                FloatText(c, e.max));
    } else {
      a.Print(",\"min\":" + Text.Decimal(e.min) + ",\"max\":" + Text.Decimal(e.max));
    }
  }

  method PutMember(a: Appender, key: string, value: string)
    requires a.Valid() && CText(value)
    modifies a`len, a`overflow, a.buf
    ensures a.Valid() && Wrote(old(a.View()), a.View(), Member(key, value))
  {
    a.PutS(key);
    label Key:
    a.PutJson(value);
    WroteThen(old(a.View()), old@Key(a.View()), a.View(), key, Json.JsonString(value));
  }

  method PutHead(a: Appender, e: Entry)
    requires a.Valid() && CText(e.name)
    modifies a`len, a`overflow, a.buf
    ensures a.Valid() && Wrote(old(a.View()), a.View(), HeadText(e))
  {
    PutMember(a, "{\"name\":", e.name);
    ghost var text := Member("{\"name\":", e.name);
    label Type:
    PutMember(a, ",\"type\":", TypeName(e.rtype));
    text := Extend(old(a.View()), old@Type(a.View()), a.View(), text, Member(",\"type\":", TypeName(e.rtype)));
    label Perm:
    a.PutS(",\"perm\":");
    label Value:
    a.PutS(PermName(e.perm));
    WroteThen(old@Perm(a.View()), old@Value(a.View()), a.View(), ",\"perm\":", PermName(e.perm));
    text := Extend(old(a.View()), old@Perm(a.View()), a.View(), text, ",\"perm\":" + PermName(e.perm));
  }

  method PutTail(a: Appender, c: Text.Libc, e: Entry, index: nat)
    requires a.Valid()
    modifies a`len, a`overflow, a.buf
    ensures a.Valid() && Wrote(old(a.View()), a.View(), IndexText(index) + RangeText(c, e) + ModbusText(e))
  {
    a.Print(IndexText(index));
    label Range:
    PutRange(a, c, e);
    ghost var text := Extend(old(a.View()), old@Range(a.View()), a.View(), IndexText(index), RangeText(c, e));
    label Modbus:
    if e.modbusAddr != 0 { a.Print(ModbusText(e)); } else { WroteNothing(a.View()); }
    text := Extend(old(a.View()), old@Modbus(a.View()), a.View(), text, ModbusText(e));
  }

  /** meta_body without the description. */
  method PutMeta(a: Appender, c: Text.Libc, e: Entry, index: nat)
    requires a.Valid() && CText(e.name)
    modifies a`len, a`overflow, a.buf
    ensures a.Valid() && Wrote(old(a.View()), a.View(), MetaText(c, e, index))
  {
    PutHead(a, e);
    label Tail:
    PutTail(a, c, e, index);
    WroteThen(old(a.View()), old@Tail(a.View()), a.View(), HeadText(e),
              IndexText(index) + RangeText(c, e) + ModbusText(e));
  }

  /** The rest of meta_body: the description if it fits, or none of it. Resetting the flag is sound only
      because it was clear before: the caller's promise that the rest already fit. */
  method PutDescription(a: Appender, d: string)
    requires a.Valid() && CText(d) && !a.overflow
    modifies a`len, a`overflow, a.buf
    ensures a.Valid() && a.size == old(a.size) && !a.overflow
    ensures a.View().text
         == old(a.View().text) + if |old(a.View().text)| + |DescText(d)| < a.size then DescText(d) else ""
  {
    var before := a.len;
    PutMember(a, ",\"desc\":", d);
    if a.overflow {
      a.Rollback(before);
      assert old(a.View().text) + "" == old(a.View().text);
    }
  }

  /** The payload regmqtt_announce sends for one entry, whose body without description is known to fit. */
  method BuildMeta(buf: array<char>, c: Text.Libc, e: Entry, index: nat, fp: uint32) returns (payload: string)
    requires CEntry(e) && buf.Length > TRAILER_LEN + 1 && |MetaText(c, e, index)| < buf.Length - TRAILER_LEN
    modifies buf
    ensures payload == MetaPayload(c, e, index, fp, buf.Length) && |payload| < buf.Length
  {
    var a := new Appender(buf, buf.Length - TRAILER_LEN);
    PutBody(a, c, e, index);
    a.size := buf.Length;
    a.Print(Trailer(fp));
    payload := buf[..a.len];
  }

  /** Body and description, on an empty appender whose size holds the reserve back. */
  method PutBody(a: Appender, c: Text.Libc, e: Entry, index: nat)
    requires a.Valid() && CEntry(e) && a.View().text == "" && !a.overflow && |MetaText(c, e, index)| < a.size
    modifies a`len, a`overflow, a.buf
    ensures a.Valid() && a.size == old(a.size) && !a.overflow
    ensures a.View().text == MetaText(c, e, index) + SentDescription(c, e, index, a.size + TRAILER_LEN)
  {
    PutMeta(a, c, e, index);
    NothingBefore(MetaText(c, e, index));
    if e.description.Some? { PutDescription(a, e.description.value); }
  }

  lemma NothingBefore(s: string)
    ensures "" + s == s && s + "" == s
  {
  }

  /** meta_fits: exactly when the body leaves room for its NUL and the trailer. */
  method MetaFits(c: Text.Libc, e: Entry, index: nat, metaSize: nat) returns (fits: bool)
    requires CText(e.name) && metaSize > TRAILER_LEN
    ensures fits <==> |MetaText(c, e, index)| < metaSize - TRAILER_LEN
  {
    var scratch := new char[metaSize - TRAILER_LEN];
    var a := new Appender(scratch, metaSize - TRAILER_LEN);
    PutMeta(a, c, e, index);
    fits := !a.overflow;
  }

  method PutField(a: Appender, key: string, value: Option<string>)
    requires a.Valid() && COptional(value)
    modifies a`len, a`overflow, a.buf
    ensures a.Valid() && Wrote(old(a.View()), a.View(), FieldText(key, value))
  {
    if value.None? { WroteNothing(a.View()); return; }
    PutMember(a, key, value.value);
    label Comma:
    a.PutC(',');
    WroteThen(old(a.View()), old@Comma(a.View()), a.View(), Member(key, value.value), ",");
  }

  method PutStrings(a: Appender, id: Identity)
    requires a.Valid() && CIdentity(id)
    modifies a`len, a`overflow, a.buf
    ensures a.Valid() && Wrote(old(a.View()), a.View(), StringsText(id))
  {
    PutField(a, "\"device\":", id.device);
    ghost var text := FieldText("\"device\":", id.device);
    label Fw:
    PutField(a, "\"fw\":", id.fw);
    text := Extend(old(a.View()), old@Fw(a.View()), a.View(), text, FieldText("\"fw\":", id.fw));
    label Hash:
    PutField(a, "\"hash\":", id.hash);
    text := Extend(old(a.View()), old@Hash(a.View()), a.View(), text, FieldText("\"hash\":", id.hash));
    label Chip:
    PutField(a, "\"chip\":", id.chip);
    text := Extend(old(a.View()), old@Chip(a.View()), a.View(), text, FieldText("\"chip\":", id.chip));
  }

  method PutIdentity(a: Appender, id: Identity, built: string, count: nat, fp: uint32)
    requires a.Valid() && CIdentity(id)
    modifies a`len, a`overflow, a.buf
    ensures a.Valid() && Wrote(old(a.View()), a.View(), IdText(id, built, count, fp))
  {
    a.PutC('{');
    label Strings:
    PutStrings(a, id);
    ghost var text := Extend(old(a.View()), old@Strings(a.View()), a.View(), "{", StringsText(id));
    label Built:
    a.PutS(BuildText(built));
    text := Extend(old(a.View()), old@Built(a.View()), a.View(), text, BuildText(built));
    label Count:
    a.Print(CountText(count, fp));
    text := Extend(old(a.View()), old@Count(a.View()), a.View(), text, CountText(count, fp));
  }

  /** id_payload: the text, when it fits. */
  method BuildIdentity(buf: array<char>, id: Identity, built: string, count: nat, fp: uint32)
    returns (payload: Option<string>)
    requires CIdentity(id) && buf.Length > 0
    modifies buf
    ensures payload == if |IdText(id, built, count, fp)| < buf.Length then Some(IdText(id, built, count, fp)) else None
  {
    var a := new Appender(buf, buf.Length);
    PutIdentity(a, id, built, count, fp);
    assert "" + IdText(id, built, count, fp) == IdText(id, built, count, fp);
    if a.overflow { return None; }
    return Some(buf[..a.len]);
  }

  lemma Extend(a: Pen, b: Pen, c: Pen, s: string, r: string) returns (text: string)
    requires Wrote(a, b, s) && Wrote(b, c, r)
    ensures text == s + r && Wrote(a, c, text)
  {
    WroteThen(a, b, c, s, r);
    text := s + r;
  }
}
