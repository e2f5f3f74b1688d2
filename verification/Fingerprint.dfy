/** The table's fingerprint: FNV-1a over one byte encoding of the entries, computed by a C loop on the
    device and by a Python function on the host. */
module Fingerprint {
  import opened Words
  import opened Registers
  import Bitwise
  import Float32
  import Seqs

  const OFFSET_BASIS: uint32 := 2166136261

  // ----- the encoding -----

  /** `(unsigned char)c` */
  function Byte(c: char): uint8 {
    c as int % 0x100
  }

  /** A C string: bytes other than NUL. */
  predicate CText(s: string) {
    forall k :: 0 <= k < |s| ==> 0 < s[k] as int < 0x100
  }

  function Description(e: Entry): string {
    match e.description
    case None => ""
    case Some(d) => d
  }

  predicate CEntry(e: Entry) {
    CText(e.name) && CText(Description(e))
  }

  predicate CTable(t: Table) {
    forall i :: 0 <= i < |t| ==> CEntry(t[i])
  }

  /** A string with its NUL. */
  function TextBytes(s: string): (bytes: seq<uint8>)
    ensures |bytes| == |s| + 1
  {
    seq(|s|, k requires 0 <= k < |s| => Byte(s[k])) + [0]
  }

  function Le16(x: uint16): seq<uint8> {
    [x % 0x100, x / 0x100]
  }

  function Le32(x: uint32): seq<uint8> {
    [x % 0x100, x / 0x100 % 0x100, x / 0x1_0000 % 0x100, x / 0x100_0000]
  }

  function TypeCode(ty: RegType): uint8 {
    match ty
    case U8 => 0 case U16 => 1 case U32 => 2 case I8 => 3 case I16 => 4 case I32 => 5 case Float => 6 case Bool => 7
  }

  function PermCode(p: RegPerm): uint8 {
    if p == RO then 0 else 1
  }

  /** Type, permission, limits and Modbus address: twelve bytes. */
  function FixedBytes(e: Entry): (bytes: seq<uint8>)
    ensures |bytes| == 12
  {
    [TypeCode(e.rtype), PermCode(e.perm)] + Le32(e.min) + Le32(e.max) + Le16(e.modbusAddr)
  }

  function EntryBytes(e: Entry): seq<uint8> {
    TextBytes(e.name) + FixedBytes(e) + TextBytes(Description(e))
  }

  function Flat(parts: seq<seq<uint8>>): seq<uint8> {
    if parts == [] then [] else parts[0] + Flat(parts[1..])
  }

  function Parts(t: Table): (parts: seq<seq<uint8>>)
    ensures |parts| == |t|
  {
    seq(|t|, i requires 0 <= i < |t| => EntryBytes(t[i]))
  }

  function Encode(t: Table): seq<uint8> {
    Flat(Parts(t))
  }

  lemma {:induction false} FlatConcat(a: seq<seq<uint8>>, b: seq<seq<uint8>>)
    ensures Flat(a + b) == Flat(a) + Flat(b)
    decreases |a|
  {
    if a == [] {
      assert a + b == b;
    } else {
      assert (a + b)[1..] == a[1..] + b;
      FlatConcat(a[1..], b);
    }
  }

  lemma FlatOne(part: seq<uint8>)
    ensures Flat([part]) == part
  {
    assert [part][1..] == [];
  }

  lemma FlatNext(parts: seq<seq<uint8>>, i: nat)
    requires i < |parts|
    ensures Flat(parts[..i + 1]) == Flat(parts[..i]) + parts[i]
  {
    assert parts[..i + 1] == parts[..i] + [parts[i]];
    FlatConcat(parts[..i], [parts[i]]);
    FlatOne(parts[i]);
  }

  // ----- the hash -----

  /** `h ^= b; h *= 16777619` on 32 bits. */
  function Mix(h: uint32, b: uint8): uint32 {
    Bitwise.Xor(h, b) * 16777619 % 0x1_0000_0000
  }

  function Fold(h: uint32, bytes: seq<uint8>): uint32 {
    if bytes == [] then h else Mix(Fold(h, bytes[..|bytes| - 1]), bytes[|bytes| - 1])
  }

  function Schema(t: Table): uint32 {
    Fold(OFFSET_BASIS, Encode(t))
  }

  lemma {:induction false} FoldConcat(h: uint32, a: seq<uint8>, b: seq<uint8>)
    ensures Fold(h, a + b) == Fold(Fold(h, a), b)
  {
    if b == [] {
      assert a + b == a;
    } else {
      assert (a + b)[..|a + b| - 1] == a + b[..|b| - 1];
      FoldConcat(h, a, b[..|b| - 1]);
    }
  }

  // ----- the device: reg_table_schema -----

  /** The loop over one string: its characters, then the NUL that ends it. */
  method MixText(h: uint32, s: string) returns (r: uint32)
    requires CText(s)
    ensures r == Fold(h, TextBytes(s))
  {
    r := h;
    var k := 0;
    ghost var bytes := TextBytes(s);
    while k < |s|
      invariant k <= |s| && r == Fold(h, bytes[..k])
    {
      assert bytes[..k + 1][..k] == bytes[..k];
      r := Mix(r, Byte(s[k]));
      k := k + 1;
    }
    assert bytes[..|bytes| - 1] == bytes[..k];
    r := Mix(r, 0);
  }

  method MixBytes(h: uint32, bytes: seq<uint8>) returns (r: uint32)
    ensures r == Fold(h, bytes)
  {
    r := h;
    for i := 0 to |bytes|
      invariant r == Fold(h, bytes[..i])
    {
      assert bytes[..i + 1][..i] == bytes[..i];
      r := Mix(r, bytes[i]);
    }
    assert bytes[..|bytes|] == bytes;
  }

  lemma FoldEntry(h: uint32, name: seq<uint8>, fixed: seq<uint8>, desc: seq<uint8>)
    ensures Fold(Fold(Fold(h, name), fixed), desc) == Fold(h, name + fixed + desc)
  {
    FoldConcat(h, name, fixed);
    FoldConcat(h, name + fixed, desc);
  }

  method TableSchema(t: Table) returns (h: uint32)
    requires CTable(t)
    ensures h == Schema(t)
  {
    h := OFFSET_BASIS;
    ghost var parts := Parts(t);
    for i := 0 to |t|
      invariant h == Fold(OFFSET_BASIS, Flat(parts[..i]))
    {
      var e := t[i];
      var start := h;
      h := MixText(h, e.name);
      h := MixBytes(h, FixedBytes(e));
      h := MixText(h, Description(e));
      FoldEntry(start, TextBytes(e.name), FixedBytes(e), TextBytes(Description(e)));
      FoldConcat(OFFSET_BASIS, Flat(parts[..i]), parts[i]);
      FlatNext(parts, i);
    }
    assert parts[..|t|] == parts;
  }

  // ----- the host: schema_fingerprint over a schema dict -----

  /** str.encode("utf-8") of one character (RFC 3629, section 3). */
  function Utf8Char(c: char): seq<uint8> {
    var n := c as int;
    if n < 0x80 then [n]
    else if n < 0x800 then [0xC0 + n / 0x40, 0x80 + n % 0x40]
    else if n < 0x1_0000 then [0xE0 + n / 0x1000, 0x80 + n / 0x40 % 0x40, 0x80 + n % 0x40]
    else [(0xF0 + n / 0x4_0000) % 0x100, 0x80 + n / 0x1000 % 0x40, 0x80 + n / 0x40 % 0x40, 0x80 + n % 0x40]
  }

  function Utf8(s: string): seq<uint8> {
    if s == "" then [] else Utf8(s[..|s| - 1]) + Utf8Char(s[|s| - 1])
  }

  /** A bound in a schema dict: a Python int, or a float already rounded to binary32. */
  datatype Bound = PyInt(v: int) | PyFloat(bits: uint32)

  datatype PyEntry = PyEntry(rtype: RegType, perm: RegPerm, min: Option<Bound>, max: Option<Bound>,
                             modbus: uint16, desc: string)

  /** An ordered dict: name and entry, in table order. */
  type PySchema = seq<(string, PyEntry)>

  /** A bound struct.pack can pack for this type. An int is rounded for FLOAT, and must not be too large. */
  predicate Packs(f32: Float32.Rounding, ty: RegType, b: Option<Bound>) {
    match b
    case None => true
    case Some(PyFloat(_)) => ty == Float
    case Some(PyInt(v)) =>
      if ty == Float then Float32.IsFinite(f32(v as real))
      else if IsSigned(ty) then -0x8000_0000 <= v < 0x8000_0000
      else 0 <= v < 0x1_0000_0000
  }

  predicate Packable(f32: Float32.Rounding, s: PySchema) {
    forall i :: 0 <= i < |s| ==> Packs(f32, s[i].1.rtype, s[i].1.min) && Packs(f32, s[i].1.rtype, s[i].1.max)
  }

  /** The inner function `bits`. */
  function PackBound(f32: Float32.Rounding, ty: RegType, b: Option<Bound>): seq<uint8> {
    match b
    case None => [0, 0, 0, 0]
    case Some(PyFloat(bits)) => Le32(bits)
    case Some(PyInt(v)) => Le32(if ty == Float then f32(v as real) else Unsigned(v))
  }

  function PyEntryBytes(f32: Float32.Rounding, name: string, e: PyEntry): seq<uint8> {
    Utf8(name) + [0]
    + ([TypeCode(e.rtype), PermCode(e.perm)] + (PackBound(f32, e.rtype, e.min) + PackBound(f32, e.rtype, e.max))
       + Le16(e.modbus))
    + (Utf8(e.desc) + [0])
  }

  function PyParts(f32: Float32.Rounding, s: PySchema): (parts: seq<seq<uint8>>)
    ensures |parts| == |s|
  {
    seq(|s|, i requires 0 <= i < |s| => PyEntryBytes(f32, s[i].0, s[i].1))
  }

  function PyEncode(f32: Float32.Rounding, s: PySchema): seq<uint8> {
    Flat(PyParts(f32, s))
  }

  /** One turn of the loop: the five calls of the inner function `mix`. */
  method MixEntry(f32: Float32.Rounding, h: uint32, name: string, e: PyEntry) returns (r: uint32)
    requires Packs(f32, e.rtype, e.min) && Packs(f32, e.rtype, e.max)
    ensures r == Fold(h, PyEntryBytes(f32, name, e))
  {
    var codes := [TypeCode(e.rtype), PermCode(e.perm)];
    var limits := PackBound(f32, e.rtype, e.min) + PackBound(f32, e.rtype, e.max);
    r := MixBytes(h, Utf8(name) + [0]);
    FoldEntry(r, codes, limits, Le16(e.modbus));
    r := MixBytes(r, codes);
    r := MixBytes(r, limits);
    r := MixBytes(r, Le16(e.modbus));
    r := MixBytes(r, Utf8(e.desc) + [0]);
    FoldEntry(h, Utf8(name) + [0], codes + limits + Le16(e.modbus), Utf8(e.desc) + [0]);
  }

  method SchemaFingerprint(f32: Float32.Rounding, s: PySchema) returns (h: uint32)
    requires Packable(f32, s)
    ensures h == Fold(OFFSET_BASIS, PyEncode(f32, s))
  {
    h := OFFSET_BASIS;
    ghost var parts := PyParts(f32, s);
    for i := 0 to |s|
      invariant h == Fold(OFFSET_BASIS, Flat(parts[..i]))
    {
      h := MixEntry(f32, h, s[i].0, s[i].1);
      FoldConcat(OFFSET_BASIS, Flat(parts[..i]), parts[i]);
      FlatNext(parts, i);
    }
    assert parts[..|s|] == parts;
  }

  // ----- the two computations on a schema read back from the device -----

  /** Bytes that mean the same character in C and, through either transport, in Python. */
  predicate AsciiText(s: string) {
    forall k :: 0 <= k < |s| ==> 0 < s[k] as int < 0x80
  }

  predicate AsciiTable(t: Table) {
    forall i :: 0 <= i < |t| ==> AsciiText(t[i].name) && AsciiText(Description(t[i]))
  }

  lemma AsciiIsC(t: Table)
    requires AsciiTable(t)
    ensures CTable(t)
  {
  }

  lemma {:induction false} Utf8OfAscii(s: string)
    requires AsciiText(s)
    ensures Utf8(s) + [0] == TextBytes(s)
  {
    if s != "" {
      var front := s[..|s| - 1];
      Utf8OfAscii(front);
      assert Utf8(front) == TextBytes(front)[..|front|];
      assert TextBytes(s) == TextBytes(front)[..|front|] + [Byte(s[|s| - 1])] + [0];
    }
  }

  const NEGATIVE_ZERO: uint32 := 0x8000_0000

  /** What becomes of a limit on its way through JSON: the text of a negative zero is the number 0. */
  function ThroughJson(ty: RegType, limit: uint32): uint32 {
    if ty == Float && limit == NEGATIVE_ZERO then 0 else limit
  }

  /** A limit as the host holds it after reading it back. */
  function ReadBack(ty: RegType, limit: uint32): Bound {
    if ty == Float then PyFloat(ThroughJson(ty, limit))
    else if IsSigned(ty) then PyInt(Signed(limit))
    else PyInt(limit)
  }

  function SchemaEntry(e: Entry): PyEntry {
    PyEntry(e.rtype, e.perm, if HasRange(e) then Some(ReadBack(e.rtype, e.min)) else None,
            if HasRange(e) then Some(ReadBack(e.rtype, e.max)) else None, e.modbusAddr, Description(e))
  }

  function SchemaOf(t: Table): (s: PySchema)
    ensures |s| == |t|
  {
    seq(|t|, i requires 0 <= i < |t| => (t[i].name, SchemaEntry(t[i])))
  }

  predicate NoNegativeZero(e: Entry) {
    ThroughJson(e.rtype, e.min) == e.min && ThroughJson(e.rtype, e.max) == e.max
  }

  lemma SchemaPackable(f32: Float32.Rounding, t: Table)
    ensures Packable(f32, SchemaOf(t))
  {
  }

  /** The entry the host's bytes are those of. */
  function Zeroed(e: Entry): Entry {
    e.(min := ThroughJson(e.rtype, e.min), max := ThroughJson(e.rtype, e.max))
  }

  function ZeroedTable(t: Table): (z: Table)
    ensures |z| == |t|
  {
    seq(|t|, i requires 0 <= i < |t| => Zeroed(t[i]))
  }

  lemma BoundBytes(f32: Float32.Rounding, ty: RegType, limit: uint32)
    ensures PackBound(f32, ty, Some(ReadBack(ty, limit))) == Le32(ThroughJson(ty, limit))
  {
    UnsignedSigned(limit);
  }

  lemma EntryBytesZeroed(f32: Float32.Rounding, e: Entry)
    requires AsciiText(e.name) && AsciiText(Description(e))
    ensures PyEntryBytes(f32, e.name, SchemaEntry(e)) == EntryBytes(Zeroed(e))
  {
    Utf8OfAscii(e.name);
    Utf8OfAscii(Description(e));
    BoundBytes(f32, e.rtype, e.min);
    BoundBytes(f32, e.rtype, e.max);
    assert Le32(0) == [0, 0, 0, 0];
    Seqs.Assoc([TypeCode(e.rtype), PermCode(e.perm)], Le32(Zeroed(e).min), Le32(Zeroed(e).max));
  }

  /** The host hashes the bytes of the table with its negative zeros gone. */
  lemma HostEncoding(f32: Float32.Rounding, t: Table)
    requires AsciiTable(t)
    ensures PyParts(f32, SchemaOf(t)) == Parts(ZeroedTable(t)) && PyEncode(f32, SchemaOf(t)) == Encode(ZeroedTable(t))
  {
    forall k | 0 <= k < |t| ensures PyParts(f32, SchemaOf(t))[k] == Parts(ZeroedTable(t))[k] {
      EntryBytesZeroed(f32, t[k]);
    }
  }

  /** Host and device hash the same bytes for the same table exactly when no FLOAT limit is a negative zero. */
  lemma EncodingsAgreeIff(f32: Float32.Rounding, t: Table)
    requires AsciiTable(t)
    ensures PyEncode(f32, SchemaOf(t)) == Encode(t) <==> forall i :: 0 <= i < |t| ==> NoNegativeZero(t[i])
  {
    HostEncoding(f32, t);
    if forall i :: 0 <= i < |t| ==> NoNegativeZero(t[i]) {
      assert ZeroedTable(t) == t;
    }
    if Encode(ZeroedTable(t)) == Encode(t) { NothingZeroed(t); }
  }

  lemma NothingZeroed(t: Table)
    requires CTable(t) && Encode(ZeroedTable(t)) == Encode(t)
    ensures forall i :: 0 <= i < |t| ==> NoNegativeZero(t[i])
  {
    EncodingDecodable(ZeroedTable(t), t);
    forall i | 0 <= i < |t| ensures NoNegativeZero(t[i]) {
      assert Shapes(ZeroedTable(t))[i] == Shapes(t)[i];
    }
  }

  /** And then the fingerprints are equal. */
  lemma FingerprintsAgree(f32: Float32.Rounding, t: Table)
    requires AsciiTable(t) && forall i :: 0 <= i < |t| ==> NoNegativeZero(t[i])
    ensures Packable(f32, SchemaOf(t)) && Fold(OFFSET_BASIS, PyEncode(f32, SchemaOf(t))) == Schema(t)
  {
    SchemaPackable(f32, t);
    EncodingsAgreeIff(f32, t);
  }

  // ----- the encoding is uniquely decodable -----

  /** What the fingerprint is about: hooks aside, and a missing description is an empty one. */
  datatype Shape = Shape(name: string, rtype: RegType, perm: RegPerm, min: uint32, max: uint32, modbusAddr: uint16,
                         description: string)

  function ShapeOf(e: Entry): Shape {
    Shape(e.name, e.rtype, e.perm, e.min, e.max, e.modbusAddr, Description(e))
  }

  function Shapes(t: Table): (s: seq<Shape>)
    ensures |s| == |t|
  {
    seq(|t|, i requires 0 <= i < |t| => ShapeOf(t[i]))
  }

  lemma TextBytesCut(x: string, y: string, r: seq<uint8>, s: seq<uint8>)
    requires CText(x) && CText(y) && TextBytes(x) + r == TextBytes(y) + s
    requires |x| <= |y|
    ensures x == y && r == s
  {
    var a, b := TextBytes(x) + r, TextBytes(y) + s;
    assert a[|x|] == 0;
    assert forall k :: 0 <= k < |y| ==> b[k] != 0;
    forall k | 0 <= k < |x| ensures x[k] == y[k] {
      assert a[k] == Byte(x[k]) && b[k] == Byte(y[k]);
    }
    assert r == a[|x| + 1..] && s == b[|y| + 1..];
  }

  /** A string ends at its first NUL: what follows is determined too. */
  lemma TextBytesInjective(x: string, y: string, r: seq<uint8>, s: seq<uint8>)
    requires CText(x) && CText(y) && TextBytes(x) + r == TextBytes(y) + s
    ensures x == y && r == s
  {
    if |x| <= |y| { TextBytesCut(x, y, r, s); } else { TextBytesCut(y, x, s, r); }
  }

  lemma Le32Injective(x: uint32, y: uint32)
    requires Le32(x) == Le32(y)
    ensures x == y
  {
    var a, b := Le32(x), Le32(y);
    assert a[0] == b[0] && a[1] == b[1] && a[2] == b[2] && a[3] == b[3];
    Le32Value(x);
    Le32Value(y);
  }

  lemma Le32Value(x: uint32)
    ensures x == x % 0x100 + 0x100 * (x / 0x100 % 0x100) + 0x1_0000 * (x / 0x1_0000 % 0x100)
                 + 0x100_0000 * (x / 0x100_0000)
  {
    assert x / 0x1_0000 == x / 0x100 / 0x100 && x / 0x100_0000 == x / 0x1_0000 / 0x100;
  }

  lemma FixedBytesInjective(e: Entry, f: Entry)
    requires FixedBytes(e) == FixedBytes(f)
    ensures e.rtype == f.rtype && e.perm == f.perm && e.min == f.min && e.max == f.max && e.modbusAddr == f.modbusAddr
  {
    var a, b := FixedBytes(e), FixedBytes(f);
    assert a[0] == TypeCode(e.rtype) && b[0] == TypeCode(f.rtype);
    assert a[1] == PermCode(e.perm) && b[1] == PermCode(f.perm);
    assert a[2..6] == Le32(e.min) && b[2..6] == Le32(f.min);
    assert a[6..10] == Le32(e.max) && b[6..10] == Le32(f.max);
    assert a[10..] == Le16(e.modbusAddr) && b[10..] == Le16(f.modbusAddr);
    Le32Injective(e.min, f.min);
    Le32Injective(e.max, f.max);
    assert Le16(e.modbusAddr)[0] == Le16(f.modbusAddr)[0] && Le16(e.modbusAddr)[1] == Le16(f.modbusAddr)[1];
  }

  /** The first entry's bytes determine its shape and where the next entry starts. */
  lemma EntryBytesInjective(e: Entry, f: Entry, r: seq<uint8>, s: seq<uint8>)
    requires CEntry(e) && CEntry(f) && EntryBytes(e) + r == EntryBytes(f) + s
    ensures ShapeOf(e) == ShapeOf(f) && r == s
  {
    var re, rf := FixedBytes(e) + (TextBytes(Description(e)) + r), FixedBytes(f) + (TextBytes(Description(f)) + s);
    assert EntryBytes(e) + r == TextBytes(e.name) + re;
    assert EntryBytes(f) + s == TextBytes(f.name) + rf;
    TextBytesInjective(e.name, f.name, re, rf);
    assert FixedBytes(e) == re[..12] && FixedBytes(f) == rf[..12];
    FixedBytesInjective(e, f);
    assert TextBytes(Description(e)) + r == re[12..] && TextBytes(Description(f)) + s == rf[12..];
    TextBytesInjective(Description(e), Description(f), r, s);
  }

  /** The bytes hashed determine the table, up to hooks and a missing versus an empty description. */
  lemma {:induction false} EncodingDecodable(t: Table, u: Table)
    requires CTable(t) && CTable(u) && Encode(t) == Encode(u)
    ensures Shapes(t) == Shapes(u)
    decreases |t|
  {
    if t != [] && u != [] {
      First(t);
      First(u);
      EntryBytesInjective(t[0], u[0], Encode(t[1..]), Encode(u[1..]));
      EncodingDecodable(t[1..], u[1..]);
    } else {
      if t != [] { First(t); }
      if u != [] { First(u); }
    }
  }

  lemma First(t: Table)
    requires t != []
    ensures Shapes(t) == [ShapeOf(t[0])] + Shapes(t[1..])
    ensures Encode(t) == EntryBytes(t[0]) + Encode(t[1..])
  {
    assert Parts(t)[1..] == Parts(t[1..]);
  }

  /** And nothing else goes into them. */
  lemma EncodingOfShapes(t: Table, u: Table)
    requires Shapes(t) == Shapes(u)
    ensures Encode(t) == Encode(u)
  {
    assert |t| == |u|;
    forall k | 0 <= k < |t| ensures Parts(t)[k] == Parts(u)[k] {
      assert Shapes(t)[k] == Shapes(u)[k];
    }
    assert Parts(t) == Parts(u);
  }

  // ----- one changed byte always changes the hash -----

  lemma XorIn32(h: uint32, b: uint8)
    ensures Bitwise.Xor(h, b) < 0x1_0000_0000
  {
    Bitwise.Widths();
    Bitwise.XorWidth(h, b, 32);
  }

  /** The multiplier is odd, so multiplying on 32 bits loses nothing. */
  lemma MultiplyInjective(x: uint32, y: uint32)
    requires x * 16777619 % 0x1_0000_0000 == y * 16777619 % 0x1_0000_0000
    ensures x == y
  {
    // 16777619 * 899433627 == 3513497 * 2^32 + 1
    var d, j := x - y, x * 16777619 / 0x1_0000_0000 - y * 16777619 / 0x1_0000_0000;
    SameRemainder(x * 16777619, y * 16777619);
    var k := j * 899433627 - d * 3513497;
    assert d == k * 0x1_0000_0000;
  }

  lemma SameRemainder(a: nat, b: nat)
    requires a % 0x1_0000_0000 == b % 0x1_0000_0000
    ensures a - b == (a / 0x1_0000_0000 - b / 0x1_0000_0000) * 0x1_0000_0000
  {
  }

  lemma XorInjective(a: nat, b: nat, c: nat)
    requires Bitwise.Xor(a, c) == Bitwise.Xor(b, c)
    ensures a == b
  {
    Bitwise.XorAssoc(a, c, c);
    Bitwise.XorAssoc(b, c, c);
    Bitwise.XorSelf(c);
    Bitwise.XorZero(a);
    Bitwise.XorZero(b);
  }

  lemma MixInjective(g: uint32, h: uint32, b: uint8, c: uint8)
    requires Mix(g, b) == Mix(h, c) && (g == h || b == c)
    ensures g == h && b == c
  {
    XorIn32(g, b);
    XorIn32(h, c);
    MultiplyInjective(Bitwise.Xor(g, b), Bitwise.Xor(h, c));
    if b == c {
      XorInjective(g, h, b);
    } else {
      Bitwise.XorCommutes(g, b);
      Bitwise.XorCommutes(h, c);
      XorInjective(b, c, g);
    }
  }

  lemma {:induction false} FoldInjective(g: uint32, h: uint32, bytes: seq<uint8>)
    requires g != h
    ensures Fold(g, bytes) != Fold(h, bytes)
  {
    if bytes != [] {
      var init, b := bytes[..|bytes| - 1], bytes[|bytes| - 1];
      FoldInjective(g, h, init);
      if Mix(Fold(g, init), b) == Mix(Fold(h, init), b) { MixInjective(Fold(g, init), Fold(h, init), b, b); }
    }
  }

  /** Changing any one byte of what is hashed changes the fingerprint. */
  lemma OneByteChangesHash(bytes: seq<uint8>, i: nat, b: uint8)
    requires i < |bytes| && b != bytes[i]
    ensures Fold(OFFSET_BASIS, bytes[i := b]) != Fold(OFFSET_BASIS, bytes)
  {
    var before, after := bytes[..i], bytes[i + 1..];
    assert bytes == before + [bytes[i]] + after && bytes[i := b] == before + [b] + after;
    FoldConcat(OFFSET_BASIS, before + [bytes[i]], after);
    FoldConcat(OFFSET_BASIS, before + [b], after);
    FoldConcat(OFFSET_BASIS, before, [bytes[i]]);
    FoldConcat(OFFSET_BASIS, before, [b]);
    var h := Fold(OFFSET_BASIS, before);
    assert [b][..0] == [] && [bytes[i]][..0] == [];
    if Mix(h, b) == Mix(h, bytes[i]) { MixInjective(h, h, b, bytes[i]); }
    FoldInjective(Mix(h, b), Mix(h, bytes[i]), after);
  }

  function With(bytes: seq<uint8>, at: nat, b: uint8): seq<uint8>
    requires at < |bytes|
  {
    bytes[at := b]
  }

  /** One changed byte in one part is one changed byte of the whole. */
  lemma {:induction false} FlatChange(parts: seq<seq<uint8>>, i: nat, at: nat, b: uint8) returns (k: nat)
    requires i < |parts| && at < |parts[i]|
    ensures k < |Flat(parts)| && Flat(parts)[k] == parts[i][at]
    ensures Flat(parts[i := With(parts[i], at, b)]) == Flat(parts)[k := b]
  {
    var changed := parts[i := With(parts[i], at, b)];
    if i == 0 {
      k := at;
      assert changed[1..] == parts[1..];
    } else {
      var later := FlatChange(parts[1..], i - 1, at, b);
      k := |parts[0]| + later;
      assert changed[1..] == parts[1..][i - 1 := With(parts[i], at, b)];
    }
  }

  /** Exactly one of the limits is a negative zero. */
  predicate OneNegativeZero(e: Entry) {
    e.rtype == Float && (e.min == NEGATIVE_ZERO) != (e.max == NEGATIVE_ZERO)
  }

  lemma Le32Sign(x: uint32)
    requires x == NEGATIVE_ZERO
    ensures Le32(x) == [0, 0, 0, 0x80] && Le32(0) == [0, 0, 0, 0]
  {
  }

  /** The one byte that differs: the last of that limit. */
  lemma FixedZeroByte(e: Entry) returns (at: nat)
    requires OneNegativeZero(e)
    ensures at < 12 && FixedBytes(e)[at] == 0x80 && FixedBytes(Zeroed(e)) == FixedBytes(e)[at := 0]
  {
    Le32Sign(NEGATIVE_ZERO);
    at := if e.min == NEGATIVE_ZERO then 5 else 9;
    assert FixedBytes(Zeroed(e)) == FixedBytes(e)[at := 0];
  }

  lemma NegativeZeroByte(e: Entry) returns (at: nat)
    requires OneNegativeZero(e)
    ensures at < |EntryBytes(e)| && EntryBytes(e)[at] == 0x80 && EntryBytes(Zeroed(e)) == EntryBytes(e)[at := 0]
  {
    var k := FixedZeroByte(e);
    at := |e.name| + 1 + k;
    assert EntryBytes(e)[at] == FixedBytes(e)[k];
    assert EntryBytes(Zeroed(e)) == EntryBytes(e)[at := 0];
  }

  /** The condition is needed: in any table with exactly one negative zero among its FLOAT limits, the
      fingerprint the host computes always differs from the device's. */
  lemma NegativeZeroDisagrees(f32: Float32.Rounding, t: Table, i: nat)
    requires AsciiTable(t) && i < |t| && OneNegativeZero(t[i])
    requires forall j :: 0 <= j < |t| && j != i ==> NoNegativeZero(t[j])
    ensures Packable(f32, SchemaOf(t)) && Fold(OFFSET_BASIS, PyEncode(f32, SchemaOf(t))) != Schema(t)
  {
    SchemaPackable(f32, t);
    HostEncoding(f32, t);
    var at := NegativeZeroByte(t[i]);
    var k := FlatChange(Parts(t), i, at, 0);
    forall j | 0 <= j < |t| ensures Parts(ZeroedTable(t))[j] == Parts(t)[i := With(EntryBytes(t[i]), at, 0)][j] {
    }
    assert Parts(ZeroedTable(t)) == Parts(t)[i := With(EntryBytes(t[i]), at, 0)];
    OneByteChangesHash(Encode(t), k, 0);
  }
}
