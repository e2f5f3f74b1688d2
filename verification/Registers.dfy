/** The register table's entries, the variables behind them, and what one write or read does:
    the typed core path every adapter goes through. */
module Registers {
  import opened Words
  import Float32

  datatype RegType = U8 | U16 | U32 | I8 | I16 | I32 | Float | Bool

  datatype RegPerm = RO | RW

  datatype RegResult = Ok | NotFound | ReadOnly | TypeError | RangeError | Rejected | TableError

  /** One register. Range limits are 32-bit words read in the type's own domain; the hook
      flags say which of the three callbacks the entry has. */
  datatype Entry = Entry(name: string, rtype: RegType, perm: RegPerm, modbusAddr: uint16, min: uint32, max: uint32,
                         onWrite: bool, onRead: bool, onChange: bool, description: Option<string>)

  type Table = seq<Entry>

  /** What the application's synchronous hooks answer: whether on_write allows this raw value for
      entry i, and what on_read leaves in entry i's variable. Both may look at every variable. */
  datatype Hooks = Hooks(approve: (nat, uint32, seq<uint32>) -> bool, sample: (nat, seq<uint32>) -> uint32)

  /** The variables the entries point at, one distinct cell each, holding the bits of the C variable;
      and the entries whose dirty bit is set. */
  datatype Device = Device(cells: seq<uint32>, dirty: set<nat>)

  // ----- storage: one C variable per entry -----

  /** Number of bit patterns the variable of a type can hold. */
  function Patterns(ty: RegType): nat {
    match ty
    case U8 | I8 | Bool => 0x100
    case U16 | I16 => 0x1_0000
    case U32 | I32 | Float => 0x1_0000_0000
  }

  predicate IsSigned(ty: RegType) {
    ty == I8 || ty == I16 || ty == I32
  }

  ghost predicate ValidCells(t: Table, cells: seq<uint32>) {
    |cells| == |t| && forall i :: 0 <= i < |t| ==> cells[i] < Patterns(t[i].rtype)
  }

  ghost predicate ValidDevice(t: Table, d: Device) {
    ValidCells(t, d.cells) && forall i :: i in d.dirty ==> i < |t|
  }

  /** The variable's value as raw: zero-extended, sign-extended, a truth value, or a bit pattern. */
  function Load(ty: RegType, cell: uint32): uint32 {
    match ty
    case I8 => cell % 0x100 + (if cell % 0x100 < 0x80 then 0 else 0xFFFF_FF00)
    case I16 => cell % 0x1_0000 + (if cell % 0x1_0000 < 0x8000 then 0 else 0xFFFF_0000)
    case Bool => if cell != 0 then 1 else 0
    case _ => cell
  }

  /** The bits a raw value leaves in the variable: the low ones that fit. */
  function Store(ty: RegType, raw: uint32): uint32 {
    match ty
    case U8 | I8 | Bool => raw % 0x100
    case U16 | I16 => raw % 0x1_0000
    case U32 | I32 | Float => raw
  }

  // ----- validation -----

  predicate HasRange(e: Entry) {
    !(e.min == 0 && e.max == 0)
  }

  /** BOOL is normalised before anything looks at it. */
  function Normal(ty: RegType, raw: uint32): uint32 {
    if ty == Bool then (if raw != 0 then 1 else 0) else raw
  }

  /** Permission, type domain and range, in the order the core checks them; the veto comes after. */
  function Verdict(e: Entry, raw: uint32): RegResult {
    if e.perm == RO then ReadOnly
    else
      match e.rtype
      case U8 => if raw > 0xFF then RangeError else Range(e, raw)
      case U16 => if raw > 0xFFFF then RangeError else Range(e, raw)
      case I8 => if Signed(raw) < -0x80 || Signed(raw) > 0x7F then RangeError else Range(e, raw)
      case I16 => if Signed(raw) < -0x8000 || Signed(raw) > 0x7FFF then RangeError else Range(e, raw)
      case Float => if Float32.IsNaN(raw) || Float32.IsInf(raw) then TypeError else Range(e, raw)
      case Bool => Range(e, Normal(Bool, raw))
      case U32 | I32 => Range(e, raw)
  }

  function Range(e: Entry, raw: uint32): RegResult {
    if !HasRange(e) then Ok
    else if e.rtype == Float then
      if Float32.Less(raw, e.min) || Float32.Less(e.max, raw) then RangeError else Ok
    else if IsSigned(e.rtype) then
      if Signed(raw) < Signed(e.min) || Signed(raw) > Signed(e.max) then RangeError else Ok
    else if e.rtype != Bool then
      if raw < e.min || raw > e.max then RangeError else Ok
    else Ok
  }

  // ----- the number a register holds -----

  /** What a raw value says, as the number (for FLOAT, in units of 2^-149) it stands for. */
  function Number(ty: RegType, raw: uint32): int {
    if ty == Float then Float32.Value(raw) else if IsSigned(ty) then Signed(raw) else raw
  }

  /** The values a type can hold at all; FLOAT registers hold finite numbers only. */
  predicate InType(ty: RegType, raw: uint32) {
    match ty
    case U8 => 0 <= Number(ty, raw) < 0x100
    case U16 => 0 <= Number(ty, raw) < 0x1_0000
    case I8 => -0x80 <= Number(ty, raw) < 0x80
    case I16 => -0x8000 <= Number(ty, raw) < 0x8000
    case Float => Float32.IsFinite(raw)
    case Bool => raw <= 1
    case U32 | I32 => true
  }

  /** Numerically between the limits. A NaN limit of a FLOAT never refuses anything. */
  predicate InLimits(e: Entry, raw: uint32) {
    HasRange(e) && e.rtype != Bool ==>
      && ((e.rtype == Float && Float32.IsNaN(e.min)) || Number(e.rtype, e.min) <= Number(e.rtype, raw))
      && ((e.rtype == Float && Float32.IsNaN(e.max)) || Number(e.rtype, raw) <= Number(e.rtype, e.max))
  }

  /** A value the register may legally hold. */
  predicate Legal(e: Entry, raw: uint32) {
    InType(e.rtype, raw) && InLimits(e, raw)
  }

  /** The core accepts a value, up to the veto, exactly when the entry is writable and the
      (normalised) value is legal for it. */
  lemma VerdictMeaning(e: Entry, raw: uint32)
    ensures Verdict(e, raw) == Ok <==> e.perm == RW && Legal(e, Normal(e.rtype, raw))
  {
    if e.rtype == Float {
      Float32.LessIsNumericOrder(raw, e.min);
      Float32.LessIsNumericOrder(e.max, raw);
    }
  }

  /** Which refusal comes out: a read-only entry refuses everything; then a FLOAT that is no finite number is no
      value at all; then whatever is not legal is out of range, for the integers as these very numbers. */
  lemma VerdictRefusals(e: Entry, raw: uint32)
    ensures Verdict(e, raw) in {Ok, ReadOnly, TypeError, RangeError}
    ensures Verdict(e, raw) == ReadOnly <==> e.perm == RO
    ensures Verdict(e, raw) == TypeError <==> e.perm == RW && e.rtype == Float && !Float32.IsFinite(raw)
    ensures e.rtype == Bool && e.perm == RW ==> Verdict(e, raw) == Ok
    ensures IsSigned(e.rtype) && e.perm == RW ==>
              (Verdict(e, raw) == Ok <==>
                 && Representable(e.rtype, Signed(raw))
                 && ((e.min == 0 && e.max == 0) || Signed(e.min) <= Signed(raw) <= Signed(e.max)))
    ensures e.rtype in {U8, U16, U32} && e.perm == RW ==>
              (Verdict(e, raw) == Ok <==>
                 Representable(e.rtype, raw) && ((e.min == 0 && e.max == 0) || e.min <= raw <= e.max))
  {
  }

  /** The numbers of an integer type. */
  predicate Representable(ty: RegType, n: int) {
    match ty
    case U8 => 0 <= n <= 255
    case U16 => 0 <= n <= 65535
    case U32 => 0 <= n <= 4294967295
    case I8 => -128 <= n <= 127
    case I16 => -32768 <= n <= 32767
    case I32 => -2147483648 <= n <= 2147483647
    case Float | Bool => false
  }

  /** What a C variable of the type holds, given its bits, is what is loaded. */
  lemma LoadReads(ty: RegType, cell: uint32)
    requires cell < Patterns(ty)
    ensures ty in {U8, U16, U32} ==> cell < Patterns(ty) <= 0x1_0000_0000 && Load(ty, cell) == cell
    ensures ty == I8 ==> cell < 256 && Signed(Load(ty, cell)) == if cell < 128 then cell else cell - 256
    ensures ty == I16 ==> cell < 65536 && Signed(Load(ty, cell)) == if cell < 32768 then cell else cell - 65536
    ensures ty == I32 ==> Signed(Load(ty, cell)) == if cell < 0x8000_0000 then cell else cell - 0x1_0000_0000
    ensures ty == Float ==> Load(ty, cell) == cell
    ensures ty == Bool ==> Load(ty, cell) == if cell == 0 then 0 else 1
  {
  }

  lemma LowBits(raw: uint32, low: uint32, patterns: nat)
    requires patterns == 0x100 || patterns == 0x1_0000
    requires low == raw - (0x1_0000_0000 - patterns) < patterns
    ensures raw % patterns == low
  {
    if patterns == 0x100 { assert raw == 0x100 * 0xFF_FFFF + low; } else { assert raw == 0x1_0000 * 0xFFFF + low; }
  }

  /** What was accepted reads back: store then load gives the normalised value. */
  lemma LoadStore(ty: RegType, raw: uint32)
    requires InType(ty, raw)
    ensures Store(ty, raw) < Patterns(ty) && Load(ty, Store(ty, raw)) == raw
  {
    if ty == I8 && raw >= 0x80 { LowBits(raw, raw - 0xFFFF_FF00, 0x100); }
    if ty == I16 && raw >= 0x8000 { LowBits(raw, raw - 0xFFFF_0000, 0x1_0000); }
  }

  // ----- one write, one read -----

  predicate Approved(t: Table, h: Hooks, d: Device, i: nat, raw: uint32)
    requires i < |t|
  {
    !t[i].onWrite || h.approve(i, Normal(t[i].rtype, raw), d.cells)
  }

  /** The device after a write, and the answer. */
  datatype Written = Written(d: Device, r: RegResult)

  /** reg_set_raw: validate and commit. */
  function SetRaw(t: Table, h: Hooks, d: Device, i: nat, raw: uint32): (w: Written)
    requires i < |t| == |d.cells|
    ensures |w.d.cells| == |t|
  {
    var e := t[i];
    if Verdict(e, raw) != Ok then Written(d, Verdict(e, raw))
    else if !Approved(t, h, d, i, raw) then Written(d, Rejected)
    else
      var v := Normal(e.rtype, raw);
      Written(Device(d.cells[i := Store(e.rtype, v)],
                     if Load(e.rtype, d.cells[i]) != v then d.dirty + {i} else d.dirty), Ok)
  }

  /** The variables after on_read, if the entry has one, refreshed entry i. */
  function Refresh(t: Table, h: Hooks, cells: seq<uint32>, i: nat): (r: seq<uint32>)
    requires i < |t| == |cells|
    ensures |r| == |cells|
  {
    if t[i].onRead then cells[i := Store(t[i].rtype, h.sample(i, cells))] else cells
  }

  /** The device after a read, and the value. */
  datatype Fetched = Fetched(d: Device, raw: uint32)

  /** reg_get_raw: run on_read, fetch. */
  function GetRaw(t: Table, h: Hooks, d: Device, i: nat): (f: Fetched)
    requires i < |t| == |d.cells|
    ensures |f.d.cells| == |t|
  {
    var d' := d.(cells := Refresh(t, h, d.cells, i));
    Fetched(d', Load(t[i].rtype, d'.cells[i]))
  }

  /** A refused write changes neither the variables nor the dirty bits; an accepted one makes the
      entry read back as the normalised value and touches no other entry. */
  lemma SetRawEffect(t: Table, h: Hooks, d: Device, i: nat, raw: uint32)
    requires ValidDevice(t, d) && i < |t|
    ensures var Written(d', r) := SetRaw(t, h, d, i, raw);
      && ValidDevice(t, d')
      && (r != Ok ==> d' == d)
      && (r == Ok <==> t[i].perm == RW && Legal(t[i], Normal(t[i].rtype, raw)) && Approved(t, h, d, i, raw))
      && (r == Ok ==>
           && Load(t[i].rtype, d'.cells[i]) == Normal(t[i].rtype, raw)
           && (forall j :: 0 <= j < |t| && j != i ==> d'.cells[j] == d.cells[j])
           && d'.dirty == d.dirty + (if Load(t[i].rtype, d.cells[i]) != Load(t[i].rtype, d'.cells[i]) then {i} else {}))
  {
    VerdictMeaning(t[i], raw);
    if t[i].perm == RW && Legal(t[i], Normal(t[i].rtype, raw)) {
      LoadStore(t[i].rtype, Normal(t[i].rtype, raw));
    }
  }

  /** Which result a write comes to, the veto last; on_write is asked about the normalised value. */
  lemma SetRawResult(t: Table, h: Hooks, d: Device, i: nat, raw: uint32)
    requires ValidDevice(t, d) && i < |t|
    ensures var r, e := SetRaw(t, h, d, i, raw).r, t[i];
            var v := if e.rtype == Bool && raw != 0 then 1 else raw;
      r == if e.perm == RO then ReadOnly
           else if e.rtype == Float && !Float32.IsFinite(raw) then TypeError
           else if !Legal(e, v) then RangeError
           else if e.onWrite && !h.approve(i, v, d.cells) then Rejected
           else Ok
  {
    VerdictMeaning(t[i], raw);
    VerdictRefusals(t[i], raw);
  }

  // ----- what a read yields -----

  /** on_read left v in a variable of this type: the sample itself, as far as the type can hold it. */
  predicate Leaves(ty: RegType, sample: uint32, v: uint32) {
    v == Load(ty, Store(ty, sample)) && (InType(ty, sample) ==> v == sample)
  }

  /** Reading entry i of this very device yields v: what on_read leaves in its variable or, without on_read, what
      the variable holds. */
  predicate YieldsNow(t: Table, h: Hooks, d: Device, i: nat, v: uint32)
    requires i < |t| == |d.cells|
  {
    if t[i].onRead then Leaves(t[i].rtype, h.sample(i, d.cells), v) else Load(t[i].rtype, d.cells[i]) == v
  }

  /** The same whatever the other variables are by then. */
  ghost predicate Yields(t: Table, h: Hooks, d: Device, i: nat, v: uint32)
    requires i < |t| == |d.cells|
  {
    if t[i].onRead then
      forall cells: seq<uint32> :: |cells| == |t| && cells[i] == d.cells[i] ==>
        Leaves(t[i].rtype, h.sample(i, cells), v)
    else Load(t[i].rtype, d.cells[i]) == v
  }

  lemma YieldsHere(t: Table, h: Hooks, d: Device, i: nat, v: uint32)
    requires i < |t| == |d.cells| && Yields(t, h, d, i, v)
    ensures YieldsNow(t, h, d, i, v)
  {
    if t[i].onRead { assert Leaves(t[i].rtype, h.sample(i, d.cells), v); }
  }

  /** The device d' is d with v in entry i's variable, and nothing else changed; nothing at all without on_read. */
  ghost predicate Holding(t: Table, d: Device, d': Device, i: nat, v: uint32)
    requires i < |t| == |d.cells| == |d'.cells|
  {
    && Load(t[i].rtype, d'.cells[i]) == v
    && (forall j :: 0 <= j < |t| && j != i ==> d'.cells[j] == d.cells[j])
    && d'.dirty == d.dirty && (!t[i].onRead ==> d' == d)
  }

  /** A read returns what on_read left in the entry's variable, or else what was there, and touches no other
      variable and no dirty bit. */
  lemma GetRawEffect(t: Table, h: Hooks, d: Device, i: nat, v: uint32)
    requires i < |t| == |d.cells| && YieldsNow(t, h, d, i, v)
    ensures GetRaw(t, h, d, i).raw == v && Holding(t, d, GetRaw(t, h, d, i).d, i, v)
    ensures ValidDevice(t, d) ==> ValidDevice(t, GetRaw(t, h, d, i).d)
  {
  }

  /** And yields something: of a sample the type can hold, that sample. */
  lemma AlwaysYields(t: Table, h: Hooks, d: Device, i: nat) returns (v: uint32)
    requires i < |t| == |d.cells|
    ensures YieldsNow(t, h, d, i, v)
    ensures t[i].onRead && InType(t[i].rtype, h.sample(i, d.cells)) ==> v == h.sample(i, d.cells)
    ensures !t[i].onRead ==> v == Load(t[i].rtype, d.cells[i])
  {
    v := Load(t[i].rtype, d.cells[i]);
    if t[i].onRead {
      var sample := h.sample(i, d.cells);
      v := Load(t[i].rtype, Store(t[i].rtype, sample));
      if InType(t[i].rtype, sample) { LoadStore(t[i].rtype, sample); }
    }
  }

  /** A variable of an integer type or BOOL always holds a value of the type. */
  lemma YieldsInType(t: Table, h: Hooks, d: Device, i: nat, v: uint32)
    requires ValidDevice(t, d) && i < |t| && YieldsNow(t, h, d, i, v) && t[i].rtype != Float
    ensures InType(t[i].rtype, v)
  {
    var cell := if t[i].onRead then Store(t[i].rtype, h.sample(i, d.cells)) else d.cells[i];
    LoadReads(t[i].rtype, cell);
  }

  /** Reading one entry does not change what reading another yields. */
  lemma OthersYield(t: Table, h: Hooks, d: Device, i: nat, j: nat, v: uint32)
    requires i < |t| == |d.cells| && j < |t| && i != j && Yields(t, h, d, i, v)
    ensures Yields(t, h, GetRaw(t, h, d, j).d, i, v)
  {
    assert GetRaw(t, h, d, j).d.cells[i] == d.cells[i];
  }

  // ----- what no write may do -----

  /** d' is a state the adapters may lead to from d: every entry without on_read kept its variable,
      unless it is writable and now holds a legal value. */
  ghost predicate Guarded(t: Table, d: Device, d': Device) {
    && ValidDevice(t, d) && ValidDevice(t, d')
    && forall i :: 0 <= i < |t| && !t[i].onRead && d'.cells[i] != d.cells[i] ==>
         t[i].perm == RW && Legal(t[i], Load(t[i].rtype, d'.cells[i]))
  }

  /** Every writable register without on_read holds a legal value. */
  ghost predicate AllLegal(t: Table, d: Device) {
    && ValidDevice(t, d)
    && forall i :: 0 <= i < |t| && !t[i].onRead && t[i].perm == RW ==> Legal(t[i], Load(t[i].rtype, d.cells[i]))
  }

  lemma SetRawGuarded(t: Table, h: Hooks, d: Device, i: nat, raw: uint32)
    requires ValidDevice(t, d) && i < |t|
    ensures Guarded(t, d, SetRaw(t, h, d, i, raw).d)
  {
    SetRawEffect(t, h, d, i, raw);
  }

  lemma GetRawGuarded(t: Table, h: Hooks, d: Device, i: nat)
    requires ValidDevice(t, d) && i < |t|
    ensures Guarded(t, d, GetRaw(t, h, d, i).d)
  {
  }

  lemma GuardedTrans(t: Table, a: Device, b: Device, c: Device)
    requires Guarded(t, a, b) && Guarded(t, b, c)
    ensures Guarded(t, a, c)
  {
  }

  /** The first entry with this name. */
  function Find(t: Table, name: string): (r: Option<nat>)
    ensures r.Some? ==>
              && r.value < |t| && t[r.value].name == name
              && forall j :: 0 <= j < r.value ==> t[j].name != name
    ensures r.None? ==> forall j :: 0 <= j < |t| ==> t[j].name != name
  {
    FindFrom(t, name, 0)
  }

  function FindFrom(t: Table, name: string, i: nat): (r: Option<nat>)
    requires i <= |t|
    ensures r.Some? ==>
              && i <= r.value < |t| && t[r.value].name == name
              && forall j :: i <= j < r.value ==> t[j].name != name
    ensures r.None? ==> forall j :: i <= j < |t| ==> t[j].name != name
    decreases |t| - i
  {
    if i == |t| then None
    else if t[i].name == name then Some(i)
    else FindFrom(t, name, i + 1)
  }
}
