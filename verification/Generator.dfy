/** The generator's acceptance test, the table its output makes, and when every adapter's init accepts that
    table; it starts in a state the core's own checks allow. */
module Generator {
  import opened Words
  import opened Registers
  import opened Fingerprint
  import opened MqttTopics
  import CSource
  import Client
  import Float32
  import Json
  import M = MqttMeta
  import Map = ModbusMap
  import Mqtt
  import Text

  /** A value in the loaded description. Python's bool is an int that every numeric check excludes by name;
      the float -0.0 stands apart from 0.0, Endless is an infinity or NaN, Other a list or mapping. */
  datatype Yaml = Absent | Null | Text(s: string) | Flag(b: bool) | Whole(n: int) | Fraction(x: real) | MinusZero
                | Endless | Other

  /** One item of the register list. `unknown`: it has keys besides the ones below and hooks. */
  datatype Item = NotAMapping
                | Reg(name: Yaml, kind: Yaml, perm: Yaml, desc: Yaml, min: Yaml, max: Yaml, init: Yaml, modbus: Yaml,
                      unknown: bool)

  /** The host's part: the binary32 a C float constant becomes, and which names the languages involved
      reserve. */
  datatype Host = Host(bits: Float32.Rounding, reserved: string -> bool)

  predicate Numeric(y: Yaml) {
    y.Whole? || y.Fraction? || y.MinusZero?
  }

  function Amount(y: Yaml): real
    requires Numeric(y)
  {
    if y.Whole? then y.n as real else if y.MinusZero? then 0.0 else y.x
  }

  /** finite_float: zero, or a normal binary32 magnitude. */
  predicate FiniteFloat(y: Yaml) {
    && Numeric(y)
    && (Amount(y) == 0.0 || Float32.FLT_MIN <= Amount(y) <= Float32.FLT_MAX
        || -Float32.FLT_MAX <= Amount(y) <= -Float32.FLT_MIN)
  }

  // ----- the checks on one register -----

  predicate NameStart(c: char) {
    'a' <= c <= 'z'
  }

  predicate NameRest(c: char) {
    NameStart(c) || '0' <= c <= '9' || c == '_'
  }

  /** [a-z][a-z0-9_]{0,30}, all of it. */
  predicate FullName(s: string) {
    1 <= |s| <= 31 && NameStart(s[0]) && forall k :: 0 <= k < |s| ==> NameRest(s[k])
  }

  /** What NAME_RE.match accepts: `$` also matches before a newline that ends the text. */
  predicate NameMatches(s: string) {
    FullName(s) || (s != "" && s[|s| - 1] == '\n' && FullName(s[..|s| - 1]))
  }

  function KindOf(y: Yaml): Option<RegType> {
    if !y.Text? then None
    else if y.s == "u8" then Some(U8) else if y.s == "u16" then Some(U16) else if y.s == "u32" then Some(U32)
    else if y.s == "i8" then Some(I8) else if y.s == "i16" then Some(I16) else if y.s == "i32" then Some(I32)
    else if y.s == "float" then Some(Float) else if y.s == "bool" then Some(Bool)
    else None
  }

  predicate Ascii(s: string) {
    forall k :: 0 <= k < |s| ==> 32 <= s[k] as int < 127
  }

  predicate DescOk(y: Yaml) {
    y.Absent? || y.Null? || (y.Text? && Ascii(y.s))
  }

  /** One bound or initial value of a register of this kind. */
  predicate ValueOk(ty: RegType, y: Yaml) {
    if ty == Float then FiniteFloat(y)
    else y.Whole? && Client.DomainLow(ty) <= y.n <= Client.DomainHigh(ty)
  }

  predicate RangeOk(ty: RegType, lo: Yaml, hi: Yaml) {
    if lo.Absent? then hi.Absent?
    else
      && !hi.Absent? && ty != Bool && Numeric(lo) && Numeric(hi)
      && ValueOk(ty, lo) && ValueOk(ty, hi)
      && Amount(lo) <= Amount(hi) && !(Amount(lo) == 0.0 && Amount(hi) == 0.0)
  }

  /** r.get("init", 0) */
  function Init(y: Yaml): Yaml {
    if y.Absent? then Whole(0) else y
  }

  predicate InitOk(ty: RegType, init: Yaml, lo: Yaml, hi: Yaml) {
    if ty == Bool then init.Flag? || (init.Whole? && 0 <= init.n <= 1)
    else
      && Numeric(init) && ValueOk(ty, init)
      && (Numeric(lo) && Numeric(hi) ==> Amount(lo) <= Amount(init) <= Amount(hi))
  }

  /** r.get("modbus", 0) */
  function Address(y: Yaml): Yaml {
    if y.Absent? then Whole(0) else y
  }

  predicate ModbusOk(ty: RegType, mb: Yaml) {
    mb.Whole? && 0 <= mb.n <= 0xFFFF && (mb.n != 0 ==> mb.n + Map.WordCount(ty) - 1 <= 0xFFFF)
  }

  predicate RegOk(h: Host, r: Item) {
    && r.Reg? && !r.unknown
    && r.name.Text? && NameMatches(r.name.s) && !h.reserved(r.name.s)
    && KindOf(r.kind).Some?
    && (r.perm == Text("ro") || r.perm == Text("rw"))
    && DescOk(r.desc)
    && RangeOk(KindOf(r.kind).value, r.min, r.max)
    && InitOk(KindOf(r.kind).value, Init(r.init), r.min, r.max)
    && ModbusOk(KindOf(r.kind).value, Address(r.modbus))
  }

  // ----- the whole description -----

  /** What the checks between registers look at: a register's name and Modbus words, none if start is 0. */
  datatype Brief = Bad | Good(name: string, start: nat, end: nat)

  function BriefOf(h: Host, r: Item): Brief {
    if !RegOk(h, r) then Bad
    else
      var start := Address(r.modbus).n;
      Good(r.name.s, start, start + Map.WordCount(KindOf(r.kind).value))
  }

  function Briefs(h: Host, regs: seq<Item>): (bs: seq<Brief>)
    ensures |bs| == |regs|
  {
    seq(|regs|, i requires 0 <= i < |regs| => BriefOf(h, regs[i]))
  }

  predicate Clash(a: Brief, b: Brief) {
    a.Good? && b.Good? && a.start != 0 && b.start != 0 && b.start < a.end && a.start < b.end
  }

  /** Register i passes its own checks and those against the registers before it. */
  ghost predicate Fresh(bs: seq<Brief>, i: nat)
    requires i < |bs|
  {
    bs[i].Good? && forall j :: 0 <= j < i && bs[j].Good? ==> bs[j].name != bs[i].name && !Clash(bs[j], bs[i])
  }

  ghost predicate Accepted(h: Host, regs: seq<Item>, maxEntries: nat) {
    1 <= |regs| <= maxEntries && forall i :: 0 <= i < |regs| ==> Fresh(Briefs(h, regs), i)
  }

  /** seen_names and spans after the first n registers. */
  ghost predicate Seen(bs: seq<Brief>, n: nat, names: set<string>, spans: seq<Brief>)
    requires n <= |bs|
  {
    && (forall j :: 0 <= j < n ==> bs[j].Good? && bs[j].name in names && (bs[j].start != 0 ==> bs[j] in spans))
    && (forall x :: x in names ==> exists j :: 0 <= j < n && bs[j].Good? && bs[j].name == x)
    && (forall b :: b in spans ==> b.Good? && b.start != 0 && b in bs[..n])
  }

  /** The search for an overlap with an earlier span. */
  method Overlaps(spans: seq<Brief>, b: Brief) returns (found: bool)
    requires b.Good? && b.start != 0 && forall s :: s in spans ==> s.Good? && s.start != 0
    ensures found <==> exists k :: 0 <= k < |spans| && Clash(spans[k], b)
  {
    for k := 0 to |spans|
      invariant forall j :: 0 <= j < k ==> !Clash(spans[j], b)
    {
      if b.start < spans[k].end && spans[k].start < b.end { return true; }
    }
    return false;
  }

  method ValidateOne(b: Brief, ghost bs: seq<Brief>, ghost i: nat, names: set<string>, spans: seq<Brief>)
    returns (ok: bool, namesNow: set<string>, spansNow: seq<Brief>)
    requires i < |bs| && b == bs[i] && Seen(bs, i, names, spans)
    ensures ok <==> Fresh(bs, i)
    ensures ok ==> Seen(bs, i + 1, namesNow, spansNow)
  {
    namesNow, spansNow := names, spans;
    if b.Bad? || b.name in names { return false, names, spans; }
    namesNow := names + {b.name};
    if b.start != 0 {
      var clash := Overlaps(spans, b);
      if clash { return false, names, spans; }
      spansNow := spans + [b];
    }
    return true, namesNow, spansNow;
  }

  /** The loop of validate, each register being first put to its own checks. */
  method ValidateAll(bs: seq<Brief>) returns (ok: bool)
    ensures ok <==> forall i :: 0 <= i < |bs| ==> Fresh(bs, i)
  {
    var names: set<string>, spans: seq<Brief> := {}, [];
    for i := 0 to |bs|
      invariant Seen(bs, i, names, spans) && forall j :: 0 <= j < i ==> Fresh(bs, j)
    {
      ok, names, spans := ValidateOne(bs[i], bs, i, names, spans);
      if !ok { return; }
    }
    return true;
  }

  method Validate(h: Host, regs: seq<Item>, maxEntries: nat) returns (ok: bool)
    ensures ok <==> Accepted(h, regs, maxEntries)
  {
    if regs == [] || |regs| > maxEntries { return false; }
    ok := ValidateAll(Briefs(h, regs));
  }

  // ----- the table it becomes -----

  /** The C constant of a bound or initial value. */
  function Constant(h: Host, ty: RegType, y: Yaml): uint32 {
    if ty == Float then (if y.MinusZero? then Float32.SIGN else if Numeric(y) then h.bits(Amount(y)) else 0)
    else if y.Flag? then (if y.b then 1 else 0)
    else if y.Whole? then Unsigned(y.n)
    else 0
  }

  /** The entry the description asks for; hooks are the application's. */
  function EntryOf(h: Host, r: Item): Entry
    requires RegOk(h, r)
  {
    var ty := KindOf(r.kind).value;
    Entry(r.name.s, ty, if r.perm == Text("ro") then RO else RW, Address(r.modbus).n,
          if r.min.Absent? then 0 else Constant(h, ty, r.min), if r.min.Absent? then 0 else Constant(h, ty, r.max),
          false, false, false, if r.desc.Text? && r.desc.s != "" then Some(r.desc.s) else None)
  }

  ghost predicate AllOk(h: Host, regs: seq<Item>) {
    forall i :: 0 <= i < |regs| ==> RegOk(h, regs[i])
  }

  ghost function TableOf(h: Host, regs: seq<Item>): (t: Table)
    requires AllOk(h, regs)
    ensures |t| == |regs|
  {
    seq(|regs|, i requires 0 <= i < |regs| => EntryOf(h, regs[i]))
  }

  lemma AcceptedOk(h: Host, regs: seq<Item>, maxEntries: nat)
    requires Accepted(h, regs, maxEntries)
    ensures AllOk(h, regs)
  {
    forall i | 0 <= i < |regs| ensures RegOk(h, regs[i]) {
      assert Fresh(Briefs(h, regs), i);
    }
  }

  lemma EntryBrief(h: Host, r: Item)
    requires RegOk(h, r)
    ensures var e := EntryOf(h, r); BriefOf(h, r) == Good(e.name, e.modbusAddr, Map.End(e)) && Map.End(e) <= 0x1_0000
  {
  }

  lemma BriefAt(h: Host, regs: seq<Item>, i: nat)
    requires AllOk(h, regs) && i < |regs|
    ensures var e := TableOf(h, regs)[i];
      Briefs(h, regs)[i] == Good(e.name, e.modbusAddr, Map.End(e)) && (e.modbusAddr != 0 ==> Map.End(e) <= 0x1_0000)
  {
    EntryBrief(h, regs[i]);
  }

  /** regmb_init accepts the map. */
  lemma MapAccepted(h: Host, regs: seq<Item>, maxEntries: nat)
    requires Accepted(h, regs, maxEntries)
    ensures AllOk(h, regs) && Map.MapOk(TableOf(h, regs))
  {
    AcceptedOk(h, regs, maxEntries);
    var t := TableOf(h, regs);
    forall i | Map.Mapped(t, i) ensures Map.End(t[i]) <= 0x1_0000 { BriefAt(h, regs, i); }
    forall i, j | Map.Mapped(t, i) && Map.Mapped(t, j) && i < j ensures !Map.Overlap(t[i], t[j]) {
      BriefAt(h, regs, i);
      BriefAt(h, regs, j);
      assert Fresh(Briefs(h, regs), j);
    }
  }

  // ----- the table registers.c makes -----

  /** The entry a compiler makes of the emitted one, which spells the name as it is and the description by
      c_string. None: it is not C. */
  function Compiled(h: Host, r: Item): Option<Entry>
    requires RegOk(h, r)
  {
    var e := EntryOf(h, r);
    var name := CSource.Literal(e.name);
    var desc := CSource.Literal(CSource.CString(Description(e)));
    if name.None? || desc.None? then None
    else Some(e.(name := name.value, description := if e.description.Some? then desc else None))
  }

  /** The table in the device, if registers.c compiles. */
  ghost function Built(h: Host, regs: seq<Item>): (t: Option<Table>)
    requires AllOk(h, regs)
    ensures t.Some? ==> |t.value| == |regs|
  {
    if forall i :: 0 <= i < |regs| ==> Compiled(h, regs[i]).Some? then
      Some(seq(|regs|, i requires 0 <= i < |regs| => Compiled(h, regs[i]).value))
    else None
  }

  ghost predicate FullNames(regs: seq<Item>) {
    forall i :: 0 <= i < |regs| && regs[i].Reg? && regs[i].name.Text? ==> FullName(regs[i].name.s)
  }

  /** A matched name spells itself unless the newline is still there. */
  lemma NameLiteral(s: string)
    requires NameMatches(s)
    ensures CSource.Literal(s) == if FullName(s) then Some(s) else None
  {
    if FullName(s) { FullNamePlain(s); } else { NewlinePlain(s); }
    CSource.LiteralOfPlain(s);
  }

  lemma FullNamePlain(s: string)
    requires FullName(s)
    ensures '\n' !in s && '"' !in s && '\\' !in s && '?' !in s
  {
  }

  lemma NewlinePlain(s: string)
    requires s != "" && s[|s| - 1] == '\n' && FullName(s[..|s| - 1])
    ensures '\n' in s && '\\' !in s && '?' !in s
  {
    FullNamePlain(s[..|s| - 1]);
    assert s == s[..|s| - 1] + "\n";
  }

  lemma CompiledIff(h: Host, r: Item)
    requires RegOk(h, r)
    ensures Compiled(h, r) == if FullName(r.name.s) then Some(EntryOf(h, r)) else None
  {
    NameLiteral(r.name.s);
    var d := Description(EntryOf(h, r));
    assert '\n' !in d;
    CSource.LiteralOfCString(d);
  }

  /** registers.c compiles exactly when every name is a full match, and then makes the table the description
      asks for. */
  lemma BuiltIff(h: Host, regs: seq<Item>)
    requires AllOk(h, regs)
    ensures Built(h, regs) == if FullNames(regs) then Some(TableOf(h, regs)) else None
  {
    forall i | 0 <= i < |regs|
      ensures Compiled(h, regs[i]) == if FullName(regs[i].name.s) then Some(EntryOf(h, regs[i])) else None
    {
      CompiledIff(h, regs[i]);
    }
    if FullNames(regs) {
      assert Built(h, regs).value == TableOf(h, regs);
    } else {
      var i :| 0 <= i < |regs| && regs[i].Reg? && regs[i].name.Text? && !FullName(regs[i].name.s);
      assert Compiled(h, regs[i]).None?;
    }
  }

  // ----- names -----

  lemma FullNameFits(s: string)
    requires FullName(s)
    ensures NameOk(s) && CText(s) && |Json.JsonString(s)| == |s| + 2
  {
    Json.PlainBody(s);
  }

  lemma EntryName(h: Host, r: Item)
    requires RegOk(h, r)
    ensures EntryOf(h, r).name == r.name.s && CText(Description(EntryOf(h, r)))
  {
  }

  /** The names are lawful topic levels, and distinct. */
  lemma NamesAccepted(h: Host, regs: seq<Item>, maxEntries: nat)
    requires Accepted(h, regs, maxEntries) && FullNames(regs)
    ensures AllOk(h, regs) && NamesOk(TableOf(h, regs)) && CTable(TableOf(h, regs))
    ensures forall i :: 0 <= i < |regs| ==> FullName(TableOf(h, regs)[i].name)
  {
    AcceptedOk(h, regs, maxEntries);
    var t := TableOf(h, regs);
    forall i | 0 <= i < |t| ensures FullName(t[i].name) && NameOk(t[i].name) && CEntry(t[i]) {
      EntryName(h, regs[i]);
      FullNameFits(t[i].name);
    }
    forall i, j | 0 <= i < j < |t| ensures t[i].name != t[j].name {
      BriefAt(h, regs, i);
      BriefAt(h, regs, j);
      assert Fresh(Briefs(h, regs), j);
    }
  }

  // ----- which inits accept it -----

  /** The description makes a device, and its core, Modbus adapter and MQTT adapter all accept the table. */
  ghost predicate EveryInit(h: Host, regs: seq<Item>, maxEntries: nat, c: Text.Libc, prefix: string, topicSize: nat,
                            metaSize: nat)
    requires AllOk(h, regs)
  {
    match Built(h, regs)
    case None => false
    case Some(t) => |t| <= maxEntries && Map.MapOk(t) && Mqtt.Accepts(c, t, prefix, topicSize, metaSize)
  }

  ghost predicate AllFit(c: Text.Libc, t: Table, prefix: string, topicSize: nat, metaSize: nat) {
    forall i :: 0 <= i < |t| ==> Mqtt.EntryFits(c, t[i], i, prefix, topicSize, metaSize)
  }

  /** For every prefix and buffer sizes: every init accepts what an accepted description makes exactly when
      its names are full matches, the prefix is lawful, and every topic and metadata text fits its buffer. */
  lemma EveryInitIff(h: Host, regs: seq<Item>, maxEntries: nat, c: Text.Libc, prefix: string, topicSize: nat,
                     metaSize: nat)
    requires Accepted(h, regs, maxEntries)
    ensures AllOk(h, regs)
    ensures EveryInit(h, regs, maxEntries, c, prefix, topicSize, metaSize) <==>
            && FullNames(regs) && PrefixOk(prefix) && |prefix| + 14 <= topicSize
            && AllFit(c, TableOf(h, regs), prefix, topicSize, metaSize)
  {
    AcceptedOk(h, regs, maxEntries);
    BuiltIff(h, regs);
    if FullNames(regs) {
      NamesAccepted(h, regs, maxEntries);
      MapAccepted(h, regs, maxEntries);
      Mqtt.AcceptsNames(c, TableOf(h, regs), prefix, topicSize, metaSize);
    }
  }

  // ----- metadata -----

  /** The length of a metadata body, piece by piece. */
  function BodySize(c: Text.Libc, e: Entry, index: nat): nat {
    41 + |e.name| + |M.TypeName(e.rtype)| + |Text.Decimal(index)| + |M.RangeText(c, e)|
    + if e.modbusAddr == 0 then 0 else 10 + |Text.Decimal(e.modbusAddr)|
  }

  lemma BodySizeIs(c: Text.Libc, e: Entry, index: nat)
    requires FullName(e.name)
    ensures |M.MetaText(c, e, index)| == BodySize(c, e, index)
  {
    HeadSize(e);
    TailSize(e, index);
  }

  lemma HeadSize(e: Entry)
    requires FullName(e.name)
    ensures |M.HeadText(e)| == 32 + |e.name| + |M.TypeName(e.rtype)|
  {
    FullNameFits(e.name);
    TypeNameSize(e.rtype);
  }

  lemma TypeNameSize(ty: RegType)
    ensures |Json.JsonString(M.TypeName(ty))| == |M.TypeName(ty)| + 2
  {
    TypeNamePlain(ty);
    PlainSize(M.TypeName(ty));
  }

  lemma TypeNamePlain(ty: RegType)
    ensures forall k :: 0 <= k < |M.TypeName(ty)| ==> Json.Plain(M.TypeName(ty)[k])
  {
  }

  lemma PlainSize(s: string)
    requires forall k :: 0 <= k < |s| ==> Json.Plain(s[k])
    ensures |Json.JsonString(s)| == |s| + 2
  {
    Json.PlainBody(s);
  }

  lemma TailSize(e: Entry, index: nat)
    ensures |M.IndexText(index)| == 9 + |Text.Decimal(index)|
    ensures |M.ModbusText(e)| == if e.modbusAddr == 0 then 0 else 10 + |Text.Decimal(e.modbusAddr)|
  {
  }

  /** %.9g of a finite float takes at most 15 characters. */
  ghost predicate ShortFloats(c: Text.Libc) {
    forall bits: uint32 :: Float32.IsFinite(bits) ==> |c.precise(bits)| <= 15
  }

  lemma SignedLength(x: uint32)
    ensures |Text.SignedDecimal(Signed(x))| <= 11
  {
    Text.DecimalLength(if Signed(x) < 0 then -Signed(x) else Signed(x), 10);
  }

  lemma RangeLength(c: Text.Libc, e: Entry)
    requires ShortFloats(c)
    ensures |M.TypeName(e.rtype)| + |M.RangeText(c, e)| <= 49
  {
    if HasRange(e) && IsSigned(e.rtype) {
      SignedLength(e.min);
      SignedLength(e.max);
    } else if HasRange(e) && e.rtype != Float {
      Text.DecimalLength(e.min, 10);
      Text.DecimalLength(e.max, 10);
    }
  }

  /** The longest metadata body among the first hundred registers takes 138 characters. */
  lemma BodyLength(c: Text.Libc, e: Entry, index: nat)
    requires |e.name| <= NAME_MAX && ShortFloats(c) && index < 100
    ensures BodySize(c, e, index) <= 138
  {
    RangeLength(c, e);
    Text.DecimalLength(index, 2);
    Text.DecimalLength(e.modbusAddr, 5);
  }

  /** A FLOAT entry with name, limits and address at their longest. */
  predicate Longest(c: Text.Libc, e: Entry) {
    && |e.name| == NAME_MAX && e.rtype == Float && HasRange(e) && e.modbusAddr >= 10000
    && |M.FloatText(c, e.min)| == 15 && |M.FloatText(c, e.max)| == 15
  }

  lemma LongestSize(c: Text.Libc, e: Entry, index: nat)
    requires Longest(c, e)
    ensures BodySize(c, e, index) == 136 + |Text.Decimal(index)|
  {
    Text.DecimalLength(e.modbusAddr, 5);
    Text.DecimalAtLeast(e.modbusAddr, 5);
    assert |M.RangeText(c, e)| == 44;
  }

  lemma Digits(n: nat)
    ensures 10 <= n < 100 ==> |Text.Decimal(n)| == 2
    ensures 100 <= n < 1000 ==> |Text.Decimal(n)| == 3
  {
    if 10 <= n < 100 {
      Text.DecimalLength(n, 2);
      Text.DecimalAtLeast(n, 2);
    } else if 100 <= n < 1000 {
      Text.DecimalLength(n, 3);
      Text.DecimalAtLeast(n, 3);
    }
  }

  /** A hundred registers are the limit: up to index 99 the longest entry takes 138 characters, exactly the
      room there is, and from index 100 on one too many. */
  lemma LongestBody(c: Text.Libc, e: Entry, index: nat)
    requires FullName(e.name) && Longest(c, e)
    ensures 10 <= index < 100 ==> |M.MetaText(c, e, index)| == 138 == 160 - M.TRAILER_LEN - 1
    ensures 100 <= index < 1000 ==> |M.MetaText(c, e, index)| == 139
  {
    BodySizeIs(c, e, index);
    LongestSize(c, e, index);
    Digits(index);
  }

  // ----- at default sizes -----

  /** The exact condition at default sizes, under a prefix that leaves room for the topics: names are full
      matches, and every body takes at most 138 characters. */
  lemma AcceptedIff(h: Host, regs: seq<Item>, maxEntries: nat, c: Text.Libc, prefix: string)
    requires Accepted(h, regs, maxEntries) && PrefixOk(prefix) && |prefix| <= 25
    ensures AllOk(h, regs)
    ensures EveryInit(h, regs, maxEntries, c, prefix, 64, 160) <==>
            FullNames(regs) && forall i :: 0 <= i < |regs| ==> BodySize(c, TableOf(h, regs)[i], i) <= 138
  {
    EveryInitIff(h, regs, maxEntries, c, prefix, 64, 160);
    if FullNames(regs) {
      NamesAccepted(h, regs, maxEntries);
      var t := TableOf(h, regs);
      forall i | 0 <= i < |t|
        ensures Mqtt.EntryFits(c, t[i], i, prefix, 64, 160) <==> BodySize(c, t[i], i) <= 138
      {
        BodySizeIs(c, t[i], i);
      }
    }
  }

  /** With at most a hundred registers the names decide. */
  lemma BelowHundredIff(h: Host, regs: seq<Item>, maxEntries: nat, c: Text.Libc, prefix: string)
    requires Accepted(h, regs, maxEntries) && PrefixOk(prefix) && |prefix| <= 25
    requires |regs| <= 100 && ShortFloats(c)
    ensures AllOk(h, regs) && (EveryInit(h, regs, maxEntries, c, prefix, 64, 160) <==> FullNames(regs))
  {
    AcceptedIff(h, regs, maxEntries, c, prefix);
    if FullNames(regs) {
      NamesAccepted(h, regs, maxEntries);
      forall i | 0 <= i < |regs| ensures BodySize(c, TableOf(h, regs)[i], i) <= 138 {
        BodyLength(c, TableOf(h, regs)[i], i);
      }
    }
  }

  /** So with fully matched names every init accepts the table: the core's, the Modbus adapter's, and the
      MQTT adapter's at default sizes. */
  lemma AcceptedEverywhere(h: Host, regs: seq<Item>, maxEntries: nat, c: Text.Libc, prefix: string)
    requires Accepted(h, regs, maxEntries) && FullNames(regs) && |regs| <= 100 && ShortFloats(c)
    requires PrefixOk(prefix) && |prefix| <= 25
    ensures AllOk(h, regs) && |TableOf(h, regs)| <= maxEntries && Map.MapOk(TableOf(h, regs))
    ensures Mqtt.Accepts(c, TableOf(h, regs), prefix, 64, 160)
  {
    BelowHundredIff(h, regs, maxEntries, c, prefix);
    BuiltIff(h, regs);
  }

  // ----- the two failing inputs -----

  /** A register of which nothing but name, type and permission is said. */
  function Plainest(name: string): Item {
    Reg(Yaml.Text(name), Yaml.Text("u8"), Yaml.Text("rw"), Absent, Absent, Absent, Absent, Absent, false)
  }

  /** One letter and a newline pass the generator, and registers.c does not compile. */
  lemma NewlineNameRefused(h: Host)
    requires !h.reserved("a\n")
    ensures var regs := [Plainest("a\n")]; Accepted(h, regs, 64) && AllOk(h, regs) && Built(h, regs) == None
  {
    var r := Plainest("a\n");
    assert "a\n"[..1] == "a";
    assert RegOk(h, r);
    assert Fresh(Briefs(h, [r]), 0);
    BuiltIff(h, [r]);
    assert !FullName([r][0].name.s);
  }

  /** r0, r1, and so on. */
  function Numbered(n: nat): string {
    "r" + Text.Decimal(n)
  }

  lemma NumberedName(n: nat)
    requires n < 100
    ensures FullName(Numbered(n)) && |Numbered(n)| <= 3
  {
    Text.DecimalLength(n, 2);
    Text.DecimalReads(n);
  }

  lemma NumberedDistinct(m: nat, n: nat)
    requires m != n
    ensures Numbered(m) != Numbered(n)
  {
    Text.DecimalReads(m);
    Text.DecimalReads(n);
    assert Numbered(m)[1..] == Text.Decimal(m) && Numbered(n)[1..] == Text.Decimal(n);
  }

  const LONG_NAME: string := "abcdefghijklmnopqrstuvwxyz_0123"

  /** A FLOAT with the longest name, limits and address. */
  function LongItem(): Item {
    var least := Fraction(-Float32.FLT_MIN);
    Reg(Yaml.Text(LONG_NAME), Yaml.Text("float"), Yaml.Text("rw"), Absent, least, least, least, Whole(10000), false)
  }

  /** A hundred plain registers and that one. */
  function Hundred(): (regs: seq<Item>)
    ensures |regs| == 101
  {
    seq(100, i requires 0 <= i < 100 => Plainest(Numbered(i))) + [LongItem()]
  }

  ghost predicate NoneReserved(h: Host) {
    !h.reserved(LONG_NAME) && forall n: nat :: n < 100 ==> !h.reserved(Numbered(n))
  }

  lemma PlainestOk(h: Host, name: string)
    requires FullName(name) && !h.reserved(name)
    ensures BriefOf(h, Plainest(name)) == Good(name, 0, 1)
  {
    assert RegOk(h, Plainest(name));
  }

  lemma LongItemOk(h: Host)
    requires !h.reserved(LONG_NAME)
    ensures FullName(LONG_NAME) && |LONG_NAME| == 31 && BriefOf(h, LongItem()) == Good(LONG_NAME, 10000, 10002)
  {
    LongName();
    assert RegOk(h, LongItem());
  }

  lemma LongName()
    ensures FullName(LONG_NAME) && |LONG_NAME| == 31
  {
  }

  lemma HundredAccepted(h: Host)
    requires NoneReserved(h)
    ensures Accepted(h, Hundred(), 101) && FullNames(Hundred())
  {
    var bs := Briefs(h, Hundred());
    LongItemOk(h);
    forall i: nat | i < 100 ensures bs[i] == Good(Numbered(i), 0, 1) && FullName(Numbered(i)) && |Numbered(i)| <= 3 {
      NumberedName(i);
      PlainestOk(h, Numbered(i));
    }
    forall i | 0 <= i < 101 ensures Fresh(bs, i) {
      forall j | 0 <= j < i ensures bs[j].name != bs[i].name && !Clash(bs[j], bs[i]) {
        if i < 100 { NumberedDistinct(j, i); }
      }
    }
  }

  /** The names are full matches, but the last of 101 registers has a body of 139 characters: the MQTT adapter
      of default size refuses the table. -FLT_MIN is the pattern 0x80800000, which %.9g prints as
      -1.17549435e-38. */
  lemma LongBodyRefused(h: Host, c: Text.Libc, prefix: string)
    requires NoneReserved(h) && PrefixOk(prefix) && |prefix| <= 25
    requires h.bits(-Float32.FLT_MIN) == 0x8080_0000 && c.precise(0x8080_0000) == "-1.17549435e-38"
    ensures Accepted(h, Hundred(), 101) && FullNames(Hundred()) && AllOk(h, Hundred())
    ensures Built(h, Hundred()) == Some(TableOf(h, Hundred()))
    ensures !Mqtt.Accepts(c, TableOf(h, Hundred()), prefix, 64, 160)
  {
    HundredAccepted(h);
    AcceptedIff(h, Hundred(), 101, c, prefix);
    BuiltIff(h, Hundred());
    MapAccepted(h, Hundred(), 101);
    LongEntry(h, c);
    assert TableOf(h, Hundred())[100] == EntryOf(h, LongItem());
  }

  lemma LongEntry(h: Host, c: Text.Libc)
    requires !h.reserved(LONG_NAME)
    requires h.bits(-Float32.FLT_MIN) == 0x8080_0000 && c.precise(0x8080_0000) == "-1.17549435e-38"
    ensures RegOk(h, LongItem()) && BodySize(c, EntryOf(h, LongItem()), 100) == 139
  {
    LongItemOk(h);
    LongestSize(c, EntryOf(h, LongItem()), 100);
    Digits(100);
  }

  // ----- the state the device starts in -----

  function InitialRaw(h: Host, r: Item): uint32
    requires RegOk(h, r)
  {
    Constant(h, KindOf(r.kind).value, Init(r.init))
  }

  ghost function InitialCells(h: Host, regs: seq<Item>): (cells: seq<uint32>)
    requires AllOk(h, regs)
    ensures |cells| == |regs|
  {
    seq(|regs|, i requires 0 <= i < |regs| => Store(KindOf(regs[i].kind).value, InitialRaw(h, regs[i])))
  }

  lemma WholeNumber(h: Host, ty: RegType, y: Yaml)
    requires ty != Float && y.Whole? && Client.DomainLow(ty) <= y.n <= Client.DomainHigh(ty)
    ensures Number(ty, Constant(h, ty, y)) == y.n
  {
    if IsSigned(ty) { SignedUnsigned(y.n); }
  }

  lemma FloatConstant(h: Host, y: Yaml)
    requires FiniteFloat(y) && Float32.Rounds(h.bits)
    ensures Float32.IsFinite(Constant(h, Float, y))
    ensures Float32.Key(Constant(h, Float, y)) == Float32.Key(h.bits(Amount(y)))
  {
    if !y.MinusZero? { Float32.RoundsWithin(h.bits, Amount(y)); }
  }

  lemma InitialLegal(h: Host, r: Item)
    requires RegOk(h, r) && Float32.Rounds(h.bits)
    ensures Legal(EntryOf(h, r), InitialRaw(h, r))
  {
    var ty, init := KindOf(r.kind).value, Init(r.init);
    if ty == Float {
      FloatConstant(h, init);
      if !r.min.Absent? { FloatLegal(h, r.min, init, r.max); }
    } else if ty != Bool {
      WholeNumber(h, ty, init);
      if !r.min.Absent? {
        WholeNumber(h, ty, r.min);
        WholeNumber(h, ty, r.max);
      }
    }
  }

  lemma FloatLegal(h: Host, lo: Yaml, init: Yaml, hi: Yaml)
    requires FiniteFloat(lo) && FiniteFloat(init) && FiniteFloat(hi) && Float32.Rounds(h.bits)
    requires Amount(lo) <= Amount(init) <= Amount(hi)
    ensures Float32.Value(Constant(h, Float, lo)) <= Float32.Value(Constant(h, Float, init))
         <= Float32.Value(Constant(h, Float, hi))
  {
    FloatConstant(h, lo);
    FloatConstant(h, init);
    FloatConstant(h, hi);
    Float32.KeyIsNumericOrder(Constant(h, Float, lo), Constant(h, Float, init));
    Float32.KeyIsNumericOrder(Constant(h, Float, init), Constant(h, Float, hi));
  }

  /** A generated device starts with every register legal: in a state its own checks would not refuse. */
  lemma StartsLegal(h: Host, regs: seq<Item>, maxEntries: nat)
    requires Accepted(h, regs, maxEntries) && Float32.Rounds(h.bits)
    ensures AllOk(h, regs) && AllLegal(TableOf(h, regs), Device(InitialCells(h, regs), {}))
    ensures forall i :: 0 <= i < |regs| ==>
              Load(TableOf(h, regs)[i].rtype, InitialCells(h, regs)[i]) == InitialRaw(h, regs[i])
  {
    AcceptedOk(h, regs, maxEntries);
    forall i | 0 <= i < |regs|
      ensures var ty := TableOf(h, regs)[i].rtype; var cell := InitialCells(h, regs)[i];
        cell < Patterns(ty) && Load(ty, cell) == InitialRaw(h, regs[i]) && Legal(TableOf(h, regs)[i], Load(ty, cell))
    {
      InitialLegal(h, regs[i]);
      LoadStore(TableOf(h, regs)[i].rtype, InitialRaw(h, regs[i]));
    }
  }
}
