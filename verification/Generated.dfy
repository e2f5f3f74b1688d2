/** The generator's two outputs, the device and its client, against each other: one description, one
    fingerprint, and a verify() that finds nothing, as far as the two languages round alike. */
module Generated {
  import opened Words
  import opened Registers
  import opened Fingerprint
  import opened Generator
  import Contract
  import Discover
  import Float32
  import Seqs

  // ----- the client -----

  /** A bound in the generated schema: for FLOAT the binary32 Python rounds it to. */
  function ClientBound(f32: Float32.Rounding, ty: RegType, y: Yaml): Option<Bound> {
    if y.Absent? then None
    else if ty == Float then
      Some(PyFloat(if y.MinusZero? then Float32.SIGN else if Numeric(y) then f32(Amount(y)) else 0))
    else if y.Whole? then Some(PyInt(y.n))
    else None
  }

  /** One register of the generated __schema__. */
  function ClientEntry(h: Host, f32: Float32.Rounding, r: Item): (string, PyEntry)
    requires RegOk(h, r)
  {
    var ty := KindOf(r.kind).value;
    (r.name.s, PyEntry(ty, if r.perm == Yaml.Text("ro") then RO else RW, ClientBound(f32, ty, r.min),
                       ClientBound(f32, ty, r.max), Address(r.modbus).n, if r.desc.Text? then r.desc.s else ""))
  }

  ghost function ClientSchema(h: Host, f32: Float32.Rounding, regs: seq<Item>): (s: PySchema)
    requires AllOk(h, regs)
    ensures |s| == |regs|
  {
    seq(|regs|, i requires 0 <= i < |regs| => ClientEntry(h, f32, regs[i]))
  }

  // ----- a range is one on both sides -----

  lemma NotZero(round: Float32.Rounding, y: Yaml)
    requires FiniteFloat(y) && Amount(y) != 0.0 && Float32.Rounds(round)
    ensures Float32.Magnitude(round(Amount(y))) != 0
  {
    Float32.RoundsAway(round, Amount(y));
  }

  lemma RangeKept(h: Host, r: Item)
    requires RegOk(h, r) && Float32.Rounds(h.bits)
    ensures HasRange(EntryOf(h, r)) <==> !r.min.Absent?
  {
    if !r.min.Absent? {
      var ty := KindOf(r.kind).value;
      if ty == Float {
        if Amount(r.min) != 0.0 { NotZero(h.bits, r.min); } else { NotZero(h.bits, r.max); }
      } else {
        WholeNumber(h, ty, r.min);
        WholeNumber(h, ty, r.max);
      }
    }
  }

  // ----- verify() -----

  /** C and Python take a number of the description for the same one. */
  predicate ReadAlike(h: Host, f32: Float32.Rounding, y: Yaml) {
    Float32.Value(Constant(h, Float, y)) == Float32.Value(Constant(h.(bits := f32), Float, y))
  }

  predicate LimitsAlike(h: Host, f32: Float32.Rounding, r: Item) {
    r.Reg? && r.kind == Yaml.Text("float") && !r.min.Absent? ==> ReadAlike(h, f32, r.min) && ReadAlike(h, f32, r.max)
  }

  lemma BoundIsIff(h: Host, f32: Float32.Rounding, e: Entry, y: Yaml, limit: uint32)
    requires Float32.Rounds(h.bits) && Float32.Rounds(f32) && HasRange(e)
    requires ValueOk(e.rtype, y) && limit == Constant(h, e.rtype, y)
    ensures Contract.BoundIs(f32, ClientBound(f32, e.rtype, y), e, limit)
       <==> (e.rtype == Float ==> ReadAlike(h, f32, y))
  {
    if e.rtype == Float {
      FloatConstant(h, y);
      FloatConstant(h.(bits := f32), y);
    } else {
      WholeBack(h, e.rtype, y);
    }
  }

  /** An integer limit reads back as the number of the description. */
  lemma WholeBack(h: Host, ty: RegType, y: Yaml)
    requires ty != Float && ValueOk(ty, y)
    ensures ReadBack(ty, Constant(h, ty, y)) == PyInt(y.n)
  {
    WholeNumber(h, ty, y);
  }

  lemma EntryIsIff(h: Host, f32: Float32.Rounding, r: Item)
    requires RegOk(h, r) && Float32.Rounds(h.bits) && Float32.Rounds(f32)
    ensures Contract.EntryIs(f32, ClientEntry(h, f32, r).1, EntryOf(h, r)) <==> LimitsAlike(h, f32, r)
  {
    var e := EntryOf(h, r);
    RangeKept(h, r);
    if !r.min.Absent? {
      BoundIsIff(h, f32, e, r.min, e.min);
      BoundIsIff(h, f32, e, r.max, e.max);
    }
    FloatKind(r.kind);
  }

  lemma FloatKind(y: Yaml)
    ensures KindOf(y) == Some(Float) <==> y == Yaml.Text("float")
  {
  }

  lemma DistinctNames(h: Host, regs: seq<Item>, maxEntries: nat)
    requires Accepted(h, regs, maxEntries)
    ensures AllOk(h, regs) && Discover.NamesDistinct(TableOf(h, regs))
  {
    AcceptedOk(h, regs, maxEntries);
    forall i, j | 0 <= i < j < |regs| ensures TableOf(h, regs)[i].name != TableOf(h, regs)[j].name {
      BriefAt(h, regs, i);
      BriefAt(h, regs, j);
      assert Fresh(Briefs(h, regs), j);
    }
  }

  lemma TextsAreAscii(h: Host, regs: seq<Item>)
    requires AllOk(h, regs) && FullNames(regs)
    ensures AsciiTable(TableOf(h, regs))
  {
    forall i | 0 <= i < |regs|
      ensures AsciiText(TableOf(h, regs)[i].name) && AsciiText(Description(TableOf(h, regs)[i]))
    {
      var r := regs[i];
      assert RegOk(h, r) && FullName(r.name.s) && TableOf(h, regs)[i] == EntryOf(h, r);
    }
  }

  /** verify() of a generated client on its own device reports nothing exactly when C and Python read every
      FLOAT limit of the description as the same number. */
  lemma GeneratedVerifies(h: Host, f32: Float32.Rounding, regs: seq<Item>, maxEntries: nat, shown: Discover.Shown,
                          raws: seq<uint32>)
    requires Accepted(h, regs, maxEntries) && FullNames(regs) && |raws| == |regs|
    requires Float32.Rounds(h.bits) && Float32.Rounds(f32) && Discover.RoundTrips(f32, shown)
    ensures AllOk(h, regs) && AsciiTable(TableOf(h, regs))
    ensures Discover.AllTyped(Discover.ListJson(shown, TableOf(h, regs), raws))
    ensures Contract.NoDifference(f32, Contract.Dict(ClientSchema(h, f32, regs)),
                                  Discover.ListJson(shown, TableOf(h, regs), raws))
       <==> forall i :: 0 <= i < |regs| ==> LimitsAlike(h, f32, regs[i])
  {
    DistinctNames(h, regs, maxEntries);
    TextsAreAscii(h, regs);
    var t, s := TableOf(h, regs), ClientSchema(h, f32, regs);
    Contract.VerifiesIff(f32, shown, Contract.Dict(s), t, raws);
    ClientHolds(h, f32, regs);
  }

  lemma ClientHolds(h: Host, f32: Float32.Rounding, regs: seq<Item>)
    requires AllOk(h, regs) && Discover.NamesDistinct(TableOf(h, regs))
    requires Float32.Rounds(h.bits) && Float32.Rounds(f32)
    ensures Contract.HoldsTable(f32, Contract.Dict(ClientSchema(h, f32, regs)), TableOf(h, regs))
       <==> forall i :: 0 <= i < |regs| ==> LimitsAlike(h, f32, regs[i])
  {
    var t, s := TableOf(h, regs), ClientSchema(h, f32, regs);
    assert Contract.SchemaNames(s) == Contract.TableNames(t);
    Contract.DictHolds(f32, s, t);
    forall i | 0 <= i < |regs| ensures Contract.EntryIs(f32, s[i].1, t[i]) <==> LimitsAlike(h, f32, regs[i]) {
      EntryIsIff(h, f32, regs[i]);
    }
  }

  // ----- the fingerprint -----

  /** The bytes of one register of the schema are those of the entry whose constants Python rounded. */
  lemma ClientBytes(h: Host, f32: Float32.Rounding, r: Item)
    requires RegOk(h, r) && FullName(r.name.s)
    ensures PyEntryBytes(f32, ClientEntry(h, f32, r).0, ClientEntry(h, f32, r).1)
         == EntryBytes(EntryOf(h.(bits := f32), r))
  {
    var e, c := EntryOf(h.(bits := f32), r), ClientEntry(h, f32, r).1;
    Utf8OfAscii(r.name.s);
    Utf8OfAscii(c.desc);
    assert Le32(0) == [0, 0, 0, 0];
    Seqs.Assoc([TypeCode(e.rtype), PermCode(e.perm)], Le32(e.min), Le32(e.max));
  }

  /** The description's own checks do not ask how constants round. */
  lemma SameChecks(h: Host, f32: Float32.Rounding, regs: seq<Item>)
    requires AllOk(h, regs)
    ensures AllOk(h.(bits := f32), regs)
  {
    forall i | 0 <= i < |regs| ensures RegOk(h.(bits := f32), regs[i]) { assert RegOk(h, regs[i]); }
  }

  lemma ClientEncode(h: Host, f32: Float32.Rounding, regs: seq<Item>)
    requires AllOk(h, regs) && AllOk(h.(bits := f32), regs) && FullNames(regs)
    ensures PyEncode(f32, ClientSchema(h, f32, regs)) == Encode(TableOf(h.(bits := f32), regs))
  {
    var u, s := TableOf(h.(bits := f32), regs), ClientSchema(h, f32, regs);
    forall i | 0 <= i < |regs| ensures PyParts(f32, s)[i] == Parts(u)[i] {
      ClientBytes(h, f32, regs[i]);
    }
    assert PyParts(f32, s) == Parts(u);
  }

  /** C and Python round a number of the description to the same pattern. */
  predicate RoundAlike(h: Host, f32: Float32.Rounding, r: Item) {
    r.Reg? && r.kind == Yaml.Text("float") && !r.min.Absent? ==>
      && Constant(h, Float, r.min) == Constant(h.(bits := f32), Float, r.min)
      && Constant(h, Float, r.max) == Constant(h.(bits := f32), Float, r.max)
  }

  lemma SameEntryIff(h: Host, f32: Float32.Rounding, r: Item)
    requires RegOk(h, r) && RegOk(h.(bits := f32), r)
    ensures ShapeOf(EntryOf(h.(bits := f32), r)) == ShapeOf(EntryOf(h, r)) <==> RoundAlike(h, f32, r)
  {
    FloatKind(r.kind);
  }

  /** Generated client and generated device hash the same bytes, and so compute the same fingerprint, exactly
      when C and Python round every FLOAT limit alike; negative zeros are no exception here. */
  lemma GeneratedFingerprint(h: Host, f32: Float32.Rounding, regs: seq<Item>)
    requires AllOk(h, regs) && FullNames(regs)
    ensures var bytes := PyEncode(f32, ClientSchema(h, f32, regs));
      && (bytes == Encode(TableOf(h, regs)) <==> forall i :: 0 <= i < |regs| ==> RoundAlike(h, f32, regs[i]))
      && ((forall i :: 0 <= i < |regs| ==> RoundAlike(h, f32, regs[i])) ==>
            Fold(OFFSET_BASIS, bytes) == Schema(TableOf(h, regs)))
  {
    SameChecks(h, f32, regs);
    ClientEncode(h, f32, regs);
    SameTablesIff(h, f32, regs);
  }

  lemma SameTablesIff(h: Host, f32: Float32.Rounding, regs: seq<Item>)
    requires AllOk(h, regs) && AllOk(h.(bits := f32), regs) && FullNames(regs)
    ensures Encode(TableOf(h.(bits := f32), regs)) == Encode(TableOf(h, regs)) <==>
            forall i :: 0 <= i < |regs| ==> RoundAlike(h, f32, regs[i])
  {
    var t, u := TableOf(h, regs), TableOf(h.(bits := f32), regs);
    forall i | 0 <= i < |regs| ensures ShapeOf(u[i]) == ShapeOf(t[i]) <==> RoundAlike(h, f32, regs[i]) {
      SameEntryIff(h, f32, regs[i]);
    }
    TextsAreAscii(h, regs);
    TextsAreAscii(h.(bits := f32), regs);
    AsciiIsC(t);
    AsciiIsC(u);
    SameEncodingIff(t, u);
  }

  lemma SameEncodingIff(t: Table, u: Table)
    requires CTable(t) && CTable(u) && |t| == |u|
    ensures Encode(u) == Encode(t) <==> forall i :: 0 <= i < |t| ==> ShapeOf(u[i]) == ShapeOf(t[i])
  {
    if Encode(u) == Encode(t) {
      EncodingDecodable(u, t);
      forall i | 0 <= i < |t| ensures ShapeOf(u[i]) == ShapeOf(t[i]) { assert Shapes(u)[i] == Shapes(t)[i]; }
    } else if forall i :: 0 <= i < |t| ==> ShapeOf(u[i]) == ShapeOf(t[i]) {
      assert Shapes(u) == Shapes(t);
      EncodingOfShapes(u, t);
    }
  }

  // ----- they do not always -----

  /** The double halfway between 1 and the next binary32. */
  const HALFWAY: real := 1.000000059604644775390625

  /** Its shortest text is 1.0000000596046448, just above: as a C constant that rounds up, while Python rounds
      the tie to even. Both are what a correct rounding does. A description with this limit makes a client
      whose verify() reports its own device. */
  lemma HalfwayDiffers(h: Host, f32: Float32.Rounding, shown: Discover.Shown, raw: uint32)
    requires Float32.Rounds(h.bits) && Float32.Rounds(f32) && Discover.RoundTrips(f32, shown) && !h.reserved("a")
    requires h.bits(HALFWAY) == 0x3F80_0001 && f32(HALFWAY) == 0x3F80_0000
    ensures var regs := [Limited()];
      && Accepted(h, regs, 64) && FullNames(regs) && AllOk(h, regs)
      && PyEncode(f32, ClientSchema(h, f32, regs)) != Encode(TableOf(h, regs))
      && AsciiTable(TableOf(h, regs)) && Discover.AllTyped(Discover.ListJson(shown, TableOf(h, regs), [raw]))
      && !Contract.NoDifference(f32, Contract.Dict(ClientSchema(h, f32, regs)),
                                Discover.ListJson(shown, TableOf(h, regs), [raw]))
  {
    var regs := [Limited()];
    LimitedAccepted(h);
    HalfwayValues();
    GeneratedFingerprint(h, f32, regs);
    GeneratedVerifies(h, f32, regs, 64, shown, [raw]);
    assert !RoundAlike(h, f32, regs[0]) && !LimitsAlike(h, f32, regs[0]);
  }

  /** A FLOAT register from 0 to that number. */
  function Limited(): Item {
    Reg(Yaml.Text("a"), Yaml.Text("float"), Yaml.Text("rw"), Absent, Whole(0), Fraction(HALFWAY), Absent, Absent, false)
  }

  lemma LimitedAccepted(h: Host)
    requires !h.reserved("a")
    ensures Accepted(h, [Limited()], 64) && FullNames([Limited()]) && AllOk(h, [Limited()])
  {
    assert RegOk(h, Limited());
    assert Fresh(Briefs(h, [Limited()]), 0);
  }

  lemma HalfwayValues()
    ensures Float32.Value(0x3F80_0000) != Float32.Value(0x3F80_0001)
  {
    Float32.ScaledOrder(0x3F80_0000, 0x3F80_0001);
  }
}
