/** The host's local check of a value for a FLOAT register, against what the device makes of its text. */
module FloatChecks {
  import opened Words
  import opened Registers
  import opened Fingerprint
  import opened ClientChecks
  import Contract
  import Float32
  import Text

  /** A Python number: an int or a finite float, the float -0.0 apart, or an infinity or NaN. */
  datatype FloatArg = Number(x: real) | MinusZero | Endless

  /** f32 of a finite one; infinite where it raises. */
  function Rounded(f32: Float32.Rounding, v: FloatArg): uint32
    requires !v.Endless?
  {
    if v.MinusZero? then Float32.SIGN else f32(v.x)
  }

  /** check_value for a FLOAT: the binary32 it lets out, None when it raises. */
  function CheckedFloat(f32: Float32.Rounding, e: PyEntry, v: FloatArg): Option<uint32> {
    if v.Endless? then None
    else
      var r := Rounded(f32, v);
      if !Float32.IsFinite(r) then None
      else if v.Number? && v.x != 0.0 && Float32.Magnitude(r) == 0 then None
      else if e.min.Some? && (e.max.None? || !Between(f32, e.min.value, r, e.max.value)) then None
      else Some(r)
  }

  predicate Between(f32: Float32.Rounding, lo: Bound, r: uint32, hi: Bound) {
    Float32.Value(Contract.Pattern(f32, lo)) <= Float32.Value(r) <= Float32.Value(Contract.Pattern(f32, hi))
  }

  /** repr of a float, str of an int. */
  type Spelling = FloatArg -> string

  /** What strtod and the conversion to float make of these texts: the same rounding. */
  ghost predicate ReadsNumbers(c: Text.Libc, f32: Float32.Rounding, spell: Spelling) {
    forall v: FloatArg ::
      if v.Endless? then !c.strtod(spell(v)).Bits?
      else if Float32.IsFinite(Rounded(f32, v)) then c.strtod(spell(v)) == Text.Bits(Rounded(f32, v))
      else c.strtod(spell(v)) == Text.TooLarge
  }

  /** A nonzero number that becomes a zero the register may hold. */
  predicate Underflows(f32: Float32.Rounding, e: Entry, v: FloatArg) {
    v.Number? && v.x != 0.0 && Float32.Magnitude(f32(v.x)) == 0 && Legal(e, f32(v.x))
  }

  /** Local check and device agree on a number, written out in full, exactly unless it underflows: the host
      refuses to send what the device would store as zero. */
  lemma FloatChecksAgreeIff(c: Text.Libc, f32: Float32.Rounding, spell: Spelling, e: Entry, v: FloatArg)
    requires e.rtype == Float && ReadsNumbers(c, f32, spell)
    requires HasRange(e) ==> Float32.IsFinite(e.min) && Float32.IsFinite(e.max)
    ensures (CheckedFloat(f32, SchemaEntry(e), v).Some? <==> Takes(c, e, spell(v))) <==> !Underflows(f32, e, v)
  {
    if !v.Endless? {
      var r := Rounded(f32, v);
      assert c.strtod(spell(v)) == if Float32.IsFinite(r) then Text.Bits(r) else Text.TooLarge;
      if Float32.IsFinite(r) { BetweenIff(f32, e, r); }
    }
  }

  /** The schema's range, negative zeros and all, is the device's. */
  lemma BetweenIff(f32: Float32.Rounding, e: Entry, r: uint32)
    requires e.rtype == Float && Float32.IsFinite(r)
    requires HasRange(e) ==> Float32.IsFinite(e.min) && Float32.IsFinite(e.max)
    ensures Legal(e, r) <==>
            var s := SchemaEntry(e); s.min.Some? ==> s.max.Some? && Between(f32, s.min.value, r, s.max.value)
  {
    Contract.ZeroValue(e.min);
    Contract.ZeroValue(e.max);
  }

  /** The number a pattern is sent as. */
  function SentAs(r: uint32): FloatArg {
    if r == Float32.SIGN then MinusZero else Number(Float32.RealOf(r))
  }

  /** Rounding leaves a binary32 alone. */
  ghost predicate KeepsBinary32(f32: Float32.Rounding) {
    forall b: uint32 :: Float32.IsFinite(b) && b != Float32.SIGN ==> f32(Float32.RealOf(b)) == b
  }

  /** What the check lets out, the device reads as that very pattern, and finds legal. */
  lemma CheckedFloatIsTaken(c: Text.Libc, f32: Float32.Rounding, spell: Spelling, e: Entry, v: FloatArg)
    requires e.rtype == Float && ReadsNumbers(c, f32, spell) && KeepsBinary32(f32)
    requires HasRange(e) ==> Float32.IsFinite(e.min) && Float32.IsFinite(e.max)
    requires CheckedFloat(f32, SchemaEntry(e), v).Some?
    ensures var r := CheckedFloat(f32, SchemaEntry(e), v).value;
      Text.ParseText(c, Float, spell(SentAs(r))) == Text.Raw(r) && Legal(e, r)
  {
    var r := CheckedFloat(f32, SchemaEntry(e), v).value;
    BetweenIff(f32, e, r);
    assert Rounded(f32, SentAs(r)) == r;
  }

  const TINY: real := 0.0000000000000000000000000000000000000000000001

  /** They can disagree: 1e-46 rounds to zero. */
  lemma TinyDisagrees(c: Text.Libc, f32: Float32.Rounding, spell: Spelling, e: Entry)
    requires e.rtype == Float && ReadsNumbers(c, f32, spell) && !HasRange(e) && f32(TINY) == 0
    ensures CheckedFloat(f32, SchemaEntry(e), Number(TINY)) == None && Takes(c, e, spell(Number(TINY)))
  {
    assert Rounded(f32, Number(TINY)) == 0;
    assert c.strtod(spell(Number(TINY))) == Text.Bits(0);
  }
}
