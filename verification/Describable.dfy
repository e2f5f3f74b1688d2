/** Nothing ordinary is refused: every table a device could have, as far as a description can say it at all, is what the
    generator makes of some description it accepts. */
module Describable {
  import opened Words
  import opened Registers
  import opened Fingerprint
  import opened Generator
  import Binary32
  import FloatChecks
  import Float32
  import Map = ModbusMap

  /** A description can spell this value: finite, and no subnormal. */
  predicate Sayable(ty: RegType, raw: uint32) {
    InType(ty, raw) && (ty == Float ==> Float32.Magnitude(raw) == 0 || Float32.Magnitude(raw) >= Float32.MIN_NORMAL)
  }

  /** Limits: none, or two such values in order, not both zero, on a type other than BOOL. */
  predicate RangeSayable(e: Entry) {
    HasRange(e) ==>
      && e.rtype != Bool && Sayable(e.rtype, e.min) && Sayable(e.rtype, e.max)
      && Number(e.rtype, e.min) <= Number(e.rtype, e.max)
      && !(Number(e.rtype, e.min) == 0 && Number(e.rtype, e.max) == 0)
  }

  /** An entry without hooks, which are the application's, starting with v. */
  predicate Ordinary(h: Host, e: Entry, v: uint32) {
    && FullName(e.name) && !h.reserved(e.name)
    && Ascii(Description(e)) && e.description != Some("")
    && !e.onWrite && !e.onRead && !e.onChange
    && (e.modbusAddr != 0 ==> Map.End(e) <= 0x1_0000)
    && RangeSayable(e) && Sayable(e.rtype, v) && Legal(e, v)
  }

  // ----- its description -----

  function KindText(ty: RegType): string {
    match ty
    case U8 => "u8" case U16 => "u16" case U32 => "u32" case I8 => "i8" case I16 => "i16" case I32 => "i32"
    case Float => "float" case Bool => "bool"
  }

  function ValueYaml(ty: RegType, raw: uint32): Yaml {
    if ty != Float then Whole(Number(ty, raw))
    else if raw == Float32.SIGN then MinusZero
    else Fraction(Float32.RealOf(raw))
  }

  function Described(e: Entry, v: uint32): Item {
    Reg(Yaml.Text(e.name), Yaml.Text(KindText(e.rtype)), Yaml.Text(if e.perm == RO then "ro" else "rw"),
        if e.description.Some? then Yaml.Text(e.description.value) else Absent,
        if HasRange(e) then ValueYaml(e.rtype, e.min) else Absent,
        if HasRange(e) then ValueYaml(e.rtype, e.max) else Absent,
        ValueYaml(e.rtype, v), Whole(e.modbusAddr), false)
  }

  lemma KindRead(ty: RegType)
    ensures KindOf(Yaml.Text(KindText(ty))) == Some(ty)
  {
  }

  lemma ValueSaid(h: Host, ty: RegType, raw: uint32)
    requires Sayable(ty, raw) && ty != Bool && FloatChecks.KeepsBinary32(h.bits)
    ensures var y := ValueYaml(ty, raw);
      && Numeric(y) && ValueOk(ty, y) && Constant(h, ty, y) == raw
      && Amount(y) == if ty == Float then Float32.RealOf(raw) else Number(ty, raw) as real
  {
    if ty == Float {
      FloatSaid(raw);
    } else if IsSigned(ty) {
      UnsignedSigned(raw);
    }
  }

  lemma FloatSaid(raw: uint32)
    requires Sayable(Float, raw)
    ensures FiniteFloat(ValueYaml(Float, raw)) && Amount(ValueYaml(Float, raw)) == Float32.RealOf(raw)
  {
    Float32.ZeroValue(raw);
    if Float32.Magnitude(raw) != 0 { Binary32.NormalWithin(raw); }
  }

  /** Amounts are in the order of the numbers. */
  lemma AmountOrder(ty: RegType, a: uint32, b: uint32)
    requires Sayable(ty, a) && Sayable(ty, b) && ty != Bool
    ensures Amount(ValueYaml(ty, a)) <= Amount(ValueYaml(ty, b)) <==> Number(ty, a) <= Number(ty, b)
    ensures Amount(ValueYaml(ty, a)) == 0.0 <==> Number(ty, a) == 0
  {
    if ty == Float {
      FloatSaid(a);
      FloatSaid(b);
      Binary32.RealOrder(a, b);
    }
  }

  lemma RangeSaid(h: Host, e: Entry, v: uint32)
    requires Ordinary(h, e, v) && FloatChecks.KeepsBinary32(h.bits)
    ensures var r := Described(e, v);
      && RangeOk(e.rtype, r.min, r.max)
      && (if r.min.Absent? then 0 else Constant(h, e.rtype, r.min)) == e.min
      && (if r.min.Absent? then 0 else Constant(h, e.rtype, r.max)) == e.max
  {
    if HasRange(e) {
      ValueSaid(h, e.rtype, e.min);
      ValueSaid(h, e.rtype, e.max);
      AmountOrder(e.rtype, e.min, e.max);
      AmountOrder(e.rtype, e.max, e.min);
    }
  }

  lemma InitSaid(h: Host, e: Entry, v: uint32)
    requires Ordinary(h, e, v) && FloatChecks.KeepsBinary32(h.bits)
    ensures var r := Described(e, v);
      InitOk(e.rtype, Init(r.init), r.min, r.max) && Constant(h, e.rtype, Init(r.init)) == v
  {
    if e.rtype != Bool {
      ValueSaid(h, e.rtype, v);
      if HasRange(e) {
        ValueSaid(h, e.rtype, e.min);
        ValueSaid(h, e.rtype, e.max);
        AmountOrder(e.rtype, e.min, v);
        AmountOrder(e.rtype, v, e.max);
      }
    }
  }

  /** An ordinary register has a description; it is accepted, and makes that very entry with that initial value. */
  lemma OrdinaryAccepted(h: Host, e: Entry, v: uint32)
    requires Ordinary(h, e, v) && FloatChecks.KeepsBinary32(h.bits)
    ensures RegOk(h, Described(e, v)) && EntryOf(h, Described(e, v)) == e && InitialRaw(h, Described(e, v)) == v
  {
    KindRead(e.rtype);
    RangeSaid(h, e, v);
    InitSaid(h, e, v);
    assert "ro" != "rw";
  }

  // ----- and nothing else is accepted -----

  lemma FloatKept(h: Host, y: Yaml)
    requires FiniteFloat(y) && Float32.Rounds(h.bits)
    ensures Sayable(Float, Constant(h, Float, y)) && (Number(Float, Constant(h, Float, y)) == 0 <==> Amount(y) == 0.0)
  {
    var raw := Constant(h, Float, y);
    FloatConstant(h, y);
    Float32.ZeroValue(raw);
    if Amount(y) != 0.0 { Float32.RoundsAway(h.bits, Amount(y)); }
  }

  lemma WholeKept(h: Host, ty: RegType, y: Yaml)
    requires ty != Float && ty != Bool && ValueOk(ty, y)
    ensures Sayable(ty, Constant(h, ty, y)) && Number(ty, Constant(h, ty, y)) == y.n
  {
    WholeNumber(h, ty, y);
  }

  lemma RangeKept(h: Host, r: Item)
    requires RegOk(h, r) && Float32.Rounds(h.bits)
    ensures RangeSayable(EntryOf(h, r))
  {
    var ty := KindOf(r.kind).value;
    if !r.min.Absent? {
      if ty == Float {
        FloatKept(h, r.min);
        FloatKept(h, r.max);
        FloatLegal(h, r.min, r.min, r.max);
      } else {
        WholeKept(h, ty, r.min);
        WholeKept(h, ty, r.max);
      }
    }
  }

  /** What the generator accepts under a fully matched name says nothing unknown and is such an entry, with such an
      initial value. */
  lemma AcceptedIsOrdinary(h: Host, r: Item)
    requires RegOk(h, r) && FullName(r.name.s) && Float32.Rounds(h.bits)
    ensures !r.unknown && Ordinary(h, EntryOf(h, r), InitialRaw(h, r))
  {
    var ty := KindOf(r.kind).value;
    RangeKept(h, r);
    InitialLegal(h, r);
    EntryBrief(h, r);
    if ty == Float { FloatKept(h, Init(r.init)); }
  }

  // ----- a whole table -----

  ghost predicate AllOrdinary(h: Host, t: Table, vs: seq<uint32>) {
    |vs| == |t| && forall i :: 0 <= i < |t| ==> Ordinary(h, t[i], vs[i])
  }

  function DescribedAll(t: Table, vs: seq<uint32>): (regs: seq<Item>)
    requires |vs| == |t|
    ensures |regs| == |t|
  {
    seq(|t|, i requires 0 <= i < |t| => Described(t[i], vs[i]))
  }

  lemma AllDescribed(h: Host, t: Table, vs: seq<uint32>)
    requires AllOrdinary(h, t, vs) && FloatChecks.KeepsBinary32(h.bits)
    ensures AllOk(h, DescribedAll(t, vs)) && TableOf(h, DescribedAll(t, vs)) == t
    ensures forall i :: 0 <= i < |t| ==> InitialRaw(h, DescribedAll(t, vs)[i]) == vs[i]
  {
    var regs := DescribedAll(t, vs);
    forall i | 0 <= i < |t|
      ensures RegOk(h, regs[i]) && EntryOf(h, regs[i]) == t[i] && InitialRaw(h, regs[i]) == vs[i]
    {
      OrdinaryAccepted(h, t[i], vs[i]);
    }
  }

  lemma AllFresh(h: Host, t: Table, regs: seq<Item>, i: nat)
    requires AllOk(h, regs) && TableOf(h, regs) == t && i < |t| && Map.MapOk(t)
    requires forall j, k :: 0 <= j < k < |t| ==> t[j].name != t[k].name
    ensures Fresh(Briefs(h, regs), i)
  {
    var bs := Briefs(h, regs);
    BriefAt(h, regs, i);
    forall j | 0 <= j < i && bs[j].Good? ensures bs[j].name != bs[i].name && !Clash(bs[j], bs[i]) {
      BriefAt(h, regs, j);
      assert Map.Apart(t, j, i);
    }
  }

  /** Every table of ordinary entries with distinct names and a map regmb_init accepts is the table of a description
      the generator accepts, and starts with the given values. */
  lemma EveryTableDescribed(h: Host, t: Table, vs: seq<uint32>, maxEntries: nat)
    requires 1 <= |t| <= maxEntries && AllOrdinary(h, t, vs) && FloatChecks.KeepsBinary32(h.bits) && Map.MapOk(t)
    requires forall j, k :: 0 <= j < k < |t| ==> t[j].name != t[k].name
    ensures var regs := DescribedAll(t, vs);
      && Accepted(h, regs, maxEntries) && AllOk(h, regs) && TableOf(h, regs) == t
      && forall i :: 0 <= i < |t| ==> InitialRaw(h, regs[i]) == vs[i]
  {
    AllDescribed(h, t, vs);
    forall i | 0 <= i < |t| ensures Fresh(Briefs(h, DescribedAll(t, vs)), i) {
      AllFresh(h, t, DescribedAll(t, vs), i);
    }
  }
}
