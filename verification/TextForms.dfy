/** Which texts the string layer takes and gives, spelled out: every text is white space, a sign or none, and a
    rest, and these lemmas say what becomes of each. */
module TextForms {
  import opened Words
  import opened Registers
  import opened Text

  // ----- truth values -----

  /** The letters of a word in either case. */
  predicate Spells(s: string, lower: string, upper: string)
    requires |lower| == |upper|
  {
    |s| == |lower| && forall k :: 0 <= k < |s| ==> s[k] == lower[k] || s[k] == upper[k]
  }

  lemma SpellsLower(s: string, lower: string, upper: string)
    requires |lower| == |upper|
    requires forall k :: 0 <= k < |lower| ==> 'a' <= lower[k] <= 'z' && upper[k] as int == lower[k] as int - 32
    ensures Lower(s) == lower <==> Spells(s, lower, upper)
  {
    if Lower(s) == lower {
      forall k | 0 <= k < |s| ensures s[k] == lower[k] || s[k] == upper[k] { assert Lower(s)[k] == lower[k]; }
    }
  }

  /** A BOOL is "1" or the word true, "0" or the word false, in any case; everything else is no value. */
  lemma BoolForms(s: string)
    ensures BoolText(s) == if s == "1" || Spells(s, "true", "TRUE") then Raw(1)
                           else if s == "0" || Spells(s, "false", "FALSE") then Raw(0)
                           else Refused(TypeError)
  {
    SpellsLower(s, "true", "TRUE");
    SpellsLower(s, "false", "FALSE");
  }

  // ----- numbers -----

  /** Space, tab, newline, vertical tab, form feed, return. */
  predicate Spaces(w: string) {
    forall k :: 0 <= k < |w| ==> w[k] as int in {32, 9, 10, 11, 12, 13}
  }

  /** Neither white space nor a sign comes first. */
  predicate Bare(s: string) {
    s == "" || (s[0] as int !in {32, 9, 10, 11, 12, 13} && s[0] != '+' && s[0] != '-')
  }

  lemma {:induction false} TrimSpaces(w: string, s: string)
    requires Spaces(w) && (s == "" || s[0] as int !in {32, 9, 10, 11, 12, 13})
    ensures Trim(w + s) == s
  {
    if w == "" {
      assert w + s == s;
    } else {
      assert (w + s)[1..] == w[1..] + s;
      TrimSpaces(w[1..], s);
    }
  }

  lemma SignFirst(sign: char, s: string)
    ensures At([sign] + s, 0) == sign && ([sign] + s)[1..] == s
  {
  }

  /** What an unsigned register makes of the text behind white space and sign. */
  function Unsigned32(s: string): Parsed {
    match Numeral(s)
    case None => Refused(TypeError)
    case Some(v) => if v <= 4294967295 then Raw(v) else Refused(RangeError)
  }

  /** White space, then a plus or nothing, then a numeral; a minus is no value. */
  lemma UnsignedForms(w: string, s: string)
    requires Spaces(w)
    ensures Bare(s) ==> UnsignedText(w + s) == Unsigned32(s)
    ensures UnsignedText(w + ("+" + s)) == Unsigned32(s)
    ensures UnsignedText(w + ("-" + s)) == Refused(TypeError)
  {
    if Bare(s) { TrimSpaces(w, s); }
    TrimSpaces(w, "+" + s);
    TrimSpaces(w, "-" + s);
    SignFirst('+', s);
    SignFirst('-', s);
  }

  /** The same for a signed one, within int32_t. */
  function Signed32(s: string, sign: int): Parsed {
    match Numeral(s)
    case None => Refused(TypeError)
    case Some(v) =>
      if -2147483648 <= sign * v <= 2147483647 then Raw(Unsigned(sign * v)) else Refused(RangeError)
  }

  lemma SignedForms(w: string, s: string)
    requires Spaces(w)
    ensures Bare(s) ==> SignedText(w + s) == Signed32(s, 1)
    ensures SignedText(w + ("+" + s)) == Signed32(s, 1)
    ensures SignedText(w + ("-" + s)) == Signed32(s, -1)
  {
    if Bare(s) { TrimSpaces(w, s); }
    TrimSpaces(w, "+" + s);
    TrimSpaces(w, "-" + s);
    SignFirst('+', s);
    SignFirst('-', s);
  }

  predicate DecimalDigits(s: string) {
    s != "" && forall k :: 0 <= k < |s| ==> '0' <= s[k] <= '9'
  }

  predicate HexDigits(s: string) {
    s != "" && forall k :: 0 <= k < |s| ==> '0' <= s[k] <= '9' || 'a' <= s[k] <= 'f' || 'A' <= s[k] <= 'F'
  }

  lemma DigitClasses(s: string)
    ensures AllDigits(s, 10) <==> DecimalDigits(s)
    ensures AllDigits(s, 16) <==> HexDigits(s)
  {
  }

  predicate ZeroX(s: string) {
    |s| >= 2 && s[0] == '0' && s[1] in ['x', 'X']
  }

  /** A numeral is decimal digits, a leading zero or not, or hexadecimal ones behind 0x, or behind 0x twice. */
  lemma NumeralForms(s: string)
    ensures Numeral(s) == if DecimalDigits(s) then Some(NumberOf(s, 10))
                          else if ZeroX(s) && HexDigits(s[2..]) then Some(NumberOf(s[2..], 16))
                          else if ZeroX(s) && ZeroX(s[2..]) && HexDigits(s[4..]) then Some(NumberOf(s[4..], 16))
                          else None
  {
    DigitClasses(s);
    if |s| >= 2 { DigitClasses(s[2..]); }
    if |s| >= 4 { DigitClasses(s[4..]); }
  }

  /** The value of digits, one at a time, in either case. */
  lemma NextDigit(s: string, c: char, base: nat)
    ensures NumberOf("", base) == 0
    ensures var n := NumberOf(s, base);
      && ('0' <= c <= '9' ==> NumberOf(s + [c], base) == n * base + (c as int - '0' as int))
      && ('a' <= c <= 'f' ==> NumberOf(s + [c], base) == n * base + 10 + (c as int - 'a' as int))
      && ('A' <= c <= 'F' ==> NumberOf(s + [c], base) == n * base + 10 + (c as int - 'A' as int))
  {
    assert (s + [c])[..|s + [c]| - 1] == s;
  }

  /** A FLOAT is what strtod makes of the text, unless that is no number, no finite one, or too large. */
  lemma FloatForms(c: Libc, s: string)
    ensures ParseText(c, Float, s) == match c.strtod(s)
                                      case Bits(raw) => Raw(raw)
                                      case TooLarge => Refused(RangeError)
                                      case NoNumber => Refused(TypeError)
                                      case NotANumber => Refused(TypeError)
    ensures ParseText(c, Bool, s) == BoolText(s)
    ensures forall ty :: ty in [U8, U16, U32] ==> ParseText(c, ty, s) == UnsignedText(s)
    ensures forall ty :: ty in [I8, I16, I32] ==> ParseText(c, ty, s) == SignedText(s)
  {
  }

  // ----- what is printed -----

  /** The digits of a number: no leading zero, and they read as that number. */
  predicate IsDecimal(s: string, n: nat) {
    DecimalDigits(s) && NumberOf(s, 10) == n && (s[0] == '0' ==> s == "0")
  }

  lemma {:induction false} DecimalIs(n: nat)
    ensures IsDecimal(Decimal(n), n) && (n > 0 ==> Decimal(n)[0] != '0')
  {
    DecimalReads(n);
    if n >= 10 {
      DecimalIs(n / 10);
      assert Decimal(n)[0] == Decimal(n / 10)[0];
    }
  }

  /** A register prints as its number in plain decimal, with a minus when it is negative, or as true or false. */
  lemma PrintedForms(c: Libc, ty: RegType, raw: uint32)
    ensures ty in {U8, U16, U32} ==> IsDecimal(RawText(c, ty, raw), raw)
    ensures ty in {I8, I16, I32} && raw < 0x8000_0000 ==> IsDecimal(RawText(c, ty, raw), raw)
    ensures ty in {I8, I16, I32} && raw >= 0x8000_0000 ==>
              && RawText(c, ty, raw) != "" && RawText(c, ty, raw)[0] == '-'
              && IsDecimal(RawText(c, ty, raw)[1..], 0x1_0000_0000 - raw)
    ensures ty == Bool ==> RawText(c, ty, raw) == if raw == 0 then "false" else "true"
    ensures ty == Float ==> RawText(c, ty, raw) == c.general(raw)
  {
    DecimalIs(raw);
    DecimalIs(0x1_0000_0000 - raw);
  }
}
