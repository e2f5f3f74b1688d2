/** The string layer over the raw path: how a register's value is printed and parsed. */
module Text {
  import opened Words
  import opened Registers
  import Core

  // ----- the C library -----

  /** What strtod makes of a text, after the conversion to float. */
  datatype FloatText = NoNumber | NotANumber | TooLarge | Bits(raw: uint32)

  /** What the string layer asks of its C library: the largest unsigned long, the texts of a float
      under %.6g and %.9g, and strtod. */
  datatype Libc = Libc(ulongMax: nat, general: uint32 -> string, precise: uint32 -> string,
                       strtod: string -> FloatText)

  /** unsigned long has at least 32 bits (C99, section 5.2.4.2.1). */
  predicate Conforming(c: Libc) {
    c.ulongMax >= 0xFFFF_FFFF
  }

  predicate IsSpace(c: char) {
    c == ' ' || 9 <= c as int <= 13
  }

  predicate IsDigit(c: char) {
    '0' <= c <= '9'
  }

  predicate IsXDigit(c: char) {
    IsDigit(c) || 'a' <= c <= 'f' || 'A' <= c <= 'F'
  }

  function DigitValue(c: char): nat {
    if IsDigit(c) then c as int - '0' as int
    else if 'a' <= c <= 'f' then c as int - 'a' as int + 10
    else if 'A' <= c <= 'F' then c as int - 'A' as int + 10
    else 16
  }

  function ToLower(c: char): char {
    if 'A' <= c <= 'Z' then (c as int + 32) as char else c
  }

  /** The character a C string has at i: NUL from its end on. */
  function At(s: string, i: nat): char {
    if i < |s| then s[i] else '\0'
  }

  /** How many leading characters are digits in this base. */
  function DigitRun(s: string, base: nat): (n: nat)
    ensures n <= |s|
  {
    if s == "" || DigitValue(s[0]) >= base then 0 else 1 + DigitRun(s[1..], base)
  }

  function NumberOf(digits: string, base: nat): nat {
    if digits == "" then 0
    else NumberOf(digits[..|digits| - 1], base) * base + DigitValue(digits[|digits| - 1])
  }

  predicate HexPrefix(s: string) {
    |s| >= 2 && s[0] == '0' && (s[1] == 'x' || s[1] == 'X')
  }

  datatype Conversion = Conversion(value: nat, end: nat, overflow: bool)

  /** strtoul (C99, section 7.20.1.4) on a text that starts with neither white space nor a sign: in base
      16 an optional 0x counts when a digit follows it; a value beyond the type sets ERANGE. */
  function StrToUl(s: string, base: nat, max: nat): (r: Conversion)
    ensures r.end <= |s|
  {
    var skip := if base == 16 && HexPrefix(s) && IsXDigit(At(s, 2)) then 2 else 0;
    var n := DigitRun(s[skip..], base);
    var v := NumberOf(s[skip..skip + n], base);
    if n == 0 then Conversion(0, 0, false)
    else if v > max then Conversion(max, skip + n, true)
    else Conversion(v, skip + n, false)
  }

  // ----- which texts are integers, and which integers they are -----

  predicate AllDigits(s: string, base: nat) {
    s != "" && forall k :: 0 <= k < |s| ==> DigitValue(s[k]) < base
  }

  /** The value of a numeral: plain decimal (a leading zero too), or hexadecimal behind 0x, and behind a
      second 0x as well since strtoul takes one itself. */
  function Numeral(s: string): Option<nat> {
    if AllDigits(s, 10) then Some(NumberOf(s, 10))
    else if HexPrefix(s) && AllDigits(s[2..], 16) then Some(NumberOf(s[2..], 16))
    else if HexPrefix(s) && HexPrefix(s[2..]) && AllDigits(s[4..], 16) then Some(NumberOf(s[4..], 16))
    else None
  }

  /** The text without its leading white space. */
  function Trim(s: string): string {
    if s != "" && IsSpace(s[0]) then Trim(s[1..]) else s
  }

  datatype Parsed = Raw(raw: uint32) | Refused(why: RegResult)

  /** What an unsigned register accepts: optional white space, an optional '+', a numeral that fits. */
  function UnsignedText(s: string): Parsed {
    var p := Trim(s);
    if At(p, 0) == '-' then Refused(TypeError)
    else
      match Numeral(if At(p, 0) == '+' then p[1..] else p)
      case None => Refused(TypeError)
      case Some(v) => if v > 0xFFFF_FFFF then Refused(RangeError) else Raw(v)
  }

  /** A signed register takes either sign; the bounds are those of int32_t. */
  function SignedText(s: string): Parsed {
    var p := Trim(s);
    var sign := At(p, 0);
    match Numeral(if sign == '-' || sign == '+' then p[1..] else p)
    case None => Refused(TypeError)
    case Some(v) => Int32(if sign == '-' then 0 - v else v)
  }

  function Int32(v: int): Parsed {
    if -0x8000_0000 <= v < 0x8000_0000 then Raw(Unsigned(v)) else Refused(RangeError)
  }

  function Lower(s: string): string {
    seq(|s|, k requires 0 <= k < |s| => ToLower(s[k]))
  }

  function BoolText(s: string): Parsed {
    if Lower(s) == "true" || s == "1" then Raw(1)
    else if Lower(s) == "false" || s == "0" then Raw(0)
    else Refused(TypeError)
  }

  /** The raw value a text stands for in a register of this type. */
  function ParseText(c: Libc, ty: RegType, s: string): Parsed {
    match ty
    case Bool => BoolText(s)
    case U8 | U16 | U32 => UnsignedText(s)
    case I8 | I16 | I32 => SignedText(s)
    case Float =>
      match c.strtod(s)
      case NoNumber => Refused(TypeError)
      case NotANumber => Refused(TypeError)
      case TooLarge => Refused(RangeError)
      case Bits(raw) => Raw(raw)
  }

  // ----- the parsers -----

  lemma {:induction false} DigitRunAll(s: string, base: nat)
    ensures DigitRun(s, base) == |s| && s != "" <==> AllDigits(s, base)
  {
    if s != "" && DigitValue(s[0]) < base && |s| > 1 {
      DigitRunAll(s[1..], base);
      assert forall k :: 1 <= k < |s| ==> s[k] == s[1..][k - 1];
    }
  }

  /** What the parsers learn from int_base, the digit test and strtoul together: the text is a numeral
      exactly when strtoul stops at its end, and then strtoul has its value or reports overflow. */
  lemma StrToUlReads(s: string, max: nat)
    ensures
      var hex := HexPrefix(s);
      var digits := if hex then s[2..] else s;
      var conv := StrToUl(digits, if hex then 16 else 10, max);
      (if IsXDigit(At(digits, 0)) && conv.end == |digits| then
         && Numeral(s).Some?
         && var v := Numeral(s).value;
         && conv.overflow == (v > max) && (v <= max ==> conv.value == v) && (v > max ==> conv.value == max)
       else Numeral(s).None?)
  {
    if HexPrefix(s) {
      NoDecimal(s);
      HexReads(s[2..], max);
    } else {
      DigitRunAll(s, 10);
      Whole(s);
    }
  }

  lemma NoDecimal(s: string)
    requires HexPrefix(s)
    ensures !AllDigits(s, 10) && (|s| >= 4 ==> s[2..][2..] == s[4..])
  {
    assert DigitValue(s[1]) >= 10;
  }

  /** What is left behind 0x: strtoul takes another 0x itself. */
  lemma HexReads(digits: string, max: nat)
    ensures
      var conv := StrToUl(digits, 16, max);
      var n := if AllDigits(digits, 16) then Some(NumberOf(digits, 16))
               else if HexPrefix(digits) && AllDigits(digits[2..], 16) then Some(NumberOf(digits[2..], 16))
               else None;
      if IsXDigit(At(digits, 0)) && conv.end == |digits| then
        && n.Some? && conv.overflow == (n.value > max)
        && (n.value <= max ==> conv.value == n.value) && (n.value > max ==> conv.value == max)
      else n.None?
  {
    if HexPrefix(digits) {
      assert DigitValue(digits[1]) >= 16;
      SecondPrefix(digits, max);
    } else {
      DigitRunAll(digits, 16);
      Whole(digits);
    }
  }

  lemma SecondPrefix(digits: string, max: nat)
    requires HexPrefix(digits)
    ensures !AllDigits(digits, 16)
    ensures var conv, tail := StrToUl(digits, 16, max), digits[2..];
      && (conv.end == |digits| <==> AllDigits(tail, 16))
      && (AllDigits(tail, 16) ==>
            var v := NumberOf(tail, 16); conv.overflow == (v > max) && conv.value == if v > max then max else v)
  {
    var tail := digits[2..];
    assert DigitValue(digits[1]) >= 16;
    if tail != "" && IsXDigit(tail[0]) {
      DigitRunAll(tail, 16);
      assert digits[2..2 + DigitRun(tail, 16)] == tail[..DigitRun(tail, 16)];
      Whole(tail);
    } else {
      ShortRun(digits, 16);
    }
  }

  /** Digits end before the x. */
  lemma ShortRun(digits: string, base: nat)
    requires |digits| >= 2 && DigitValue(digits[1]) >= base
    ensures DigitRun(digits, base) <= 1
  {
  }

  lemma Whole(s: string)
    ensures s[0..] == s && s[..|s|] == s && s[0..|s|] == s
  {
  }

  datatype Magnitude = Malformed | Overflow | Magnitude(value: nat)

  /** The steps both integer parsers share once white space and sign are gone: int_base, the first-digit
      test, strtoul, and the checks on where it stopped and whether it overflowed. */
  method ReadMagnitude(c: Libc, s: string) returns (m: Magnitude)
    ensures m == match Numeral(s)
                 case None => Malformed
                 case Some(v) => if v > c.ulongMax then Overflow else Magnitude(v)
  {
    StrToUlReads(s, c.ulongMax);
    var hex := HexPrefix(s);
    var digits := if hex then s[2..] else s;
    if !IsXDigit(At(digits, 0)) { return Malformed; }
    var conv := StrToUl(digits, if hex then 16 else 10, c.ulongMax);
    if conv.end != |digits| { return Malformed; }
    if conv.overflow { return Overflow; }
    return Magnitude(conv.value);
  }

  /** The loop over leading white space. */
  method SkipSpace(s: string) returns (p: nat)
    ensures p <= |s| && s[p..] == Trim(s)
  {
    p := 0;
    while IsSpace(At(s, p))
      invariant p <= |s| && Trim(s[p..]) == Trim(s)
      decreases |s| - p
    {
      p := p + 1;
    }
  }

  method ParseUnsigned(c: Libc, s: string) returns (r: Parsed)
    requires Conforming(c)
    ensures r == UnsignedText(s)
  {
    var p := SkipSpace(s);
    if At(s, p) == '-' { return Refused(TypeError); }
    if At(s, p) == '+' { p := p + 1; }
    var m := ReadMagnitude(c, s[p..]);
    if m.Malformed? { return Refused(TypeError); }
    if m.Overflow? || m.value > 0xFFFF_FFFF { return Refused(RangeError); }
    return Raw(m.value);
  }

  method ParseSigned(c: Libc, s: string) returns (r: Parsed)
    requires Conforming(c)
    ensures r == SignedText(s)
  {
    var p := SkipSpace(s);
    var neg := false;
    if At(s, p) == '-' || At(s, p) == '+' { neg := At(s, p) == '-'; p := p + 1; }
    var m := ReadMagnitude(c, s[p..]);
    if m.Malformed? { return Refused(TypeError); }
    if m.Overflow? { return Refused(RangeError); }
    r := WithSign(neg, m.value);
  }

  /** The sign applied, within int32_t. */
  method WithSign(neg: bool, v: nat) returns (r: Parsed)
    ensures r == Int32(if neg then 0 - v else v)
  {
    if neg {
      if v > 0x8000_0000 { return Refused(RangeError); }
      return Raw(Unsigned(0 - v));
    }
    if v > 0x7FFF_FFFF { return Refused(RangeError); }
    return Raw(v);
  }

  /** str_ieq */
  method SameIgnoringCase(a: string, b: string) returns (same: bool)
    requires '\0' !in a && '\0' !in b
    ensures same <==> Lower(a) == Lower(b)
  {
    var k := 0;
    while At(a, k) != '\0' && At(b, k) != '\0'
      invariant k <= |a| && k <= |b|
      invariant forall j :: 0 <= j < k ==> ToLower(a[j]) == ToLower(b[j])
      decreases |a| - k
    {
      if ToLower(a[k]) != ToLower(b[k]) {
        assert Lower(a)[k] != Lower(b)[k];
        return false;
      }
      k := k + 1;
    }
    same := At(a, k) == '\0' && At(b, k) == '\0';
  }

  method ParseBool(s: string) returns (r: Parsed)
    requires '\0' !in s
    ensures r == BoolText(s)
  {
    var yes := SameIgnoringCase(s, "true");
    assert Lower("true") == "true" && Lower("false") == "false";
    if yes || s == "1" { return Raw(1); }
    var no := SameIgnoringCase(s, "false");
    if no || s == "0" { return Raw(0); }
    return Refused(TypeError);
  }

  /** reg_set_str: parse per the entry's type, then the raw path. */
  function SetText(t: Table, h: Hooks, c: Libc, d: Device, i: nat, s: string): (w: Written)
    requires i < |t| == |d.cells|
    ensures |w.d.cells| == |t|
  {
    match ParseText(c, t[i].rtype, s)
    case Refused(why) => Written(d, why)
    case Raw(raw) => SetRaw(t, h, d, i, raw)
  }

  method SetStr(table: Core.RegTable, h: Hooks, c: Libc, i: nat, s: string) returns (r: RegResult)
    requires table.Bound() && i < |table.entries| && Conforming(c) && '\0' !in s
    modifies table`cells, table`dirty
    ensures table.Bound()
    ensures Written(table.State(), r) == SetText(table.entries, h, c, old(table.State()), i, s)
  {
    var parsed;
    match table.entries[i].rtype {
      case Bool => parsed := ParseBool(s);
      case U8 | U16 | U32 => parsed := ParseUnsigned(c, s);
      case I8 | I16 | I32 => parsed := ParseSigned(c, s);
      case Float =>
        var f := c.strtod(s);
        if f.NoNumber? || f.NotANumber? { return TypeError; }
        if f.TooLarge? { return RangeError; }
        parsed := Raw(f.raw);
    }
    if parsed.Refused? { return parsed.why; }
    r := table.SetRaw(h, i, parsed.raw);
  }

  /** A refused text leaves the device alone; an accepted one writes the value it stands for. */
  lemma SetTextGuarded(t: Table, h: Hooks, c: Libc, d: Device, i: nat, s: string)
    requires ValidDevice(t, d) && i < |t|
    ensures var Written(d', r) := SetText(t, h, c, d, i, s);
      && Guarded(t, d, d')
      && (r != Ok ==> d' == d)
      && (r == Ok ==> ParseText(c, t[i].rtype, s).Raw?)
      && (r == Ok ==> Load(t[i].rtype, d'.cells[i]) == Normal(t[i].rtype, ParseText(c, t[i].rtype, s).raw))
  {
    var p := ParseText(c, t[i].rtype, s);
    if p.Raw? {
      SetRawEffect(t, h, d, i, p.raw);
      SetRawGuarded(t, h, d, i, p.raw);
    }
  }

  // ----- printing -----

  function Digit(d: nat): char
    requires d < 10
  {
    ('0' as int + d) as char
  }

  /** %lu */
  function Decimal(n: nat): string {
    if n < 10 then [Digit(n)] else Decimal(n / 10) + [Digit(n % 10)]
  }

  function Power10(k: nat): nat {
    if k == 0 then 1 else 10 * Power10(k - 1)
  }

  lemma {:induction false} DecimalLength(n: nat, digits: nat)
    requires digits >= 1 && n < Power10(digits)
    ensures 1 <= |Decimal(n)| <= digits
    decreases digits
  {
    if n >= 10 { DecimalLength(n / 10, digits - 1); }
  }

  lemma {:induction false} DecimalAtLeast(n: nat, digits: nat)
    requires digits >= 1 && n >= Power10(digits - 1)
    ensures |Decimal(n)| >= digits
    decreases digits
  {
    if digits > 1 { DecimalAtLeast(n / 10, digits - 1); }
  }

  /** %ld */
  function SignedDecimal(v: int): string {
    if v < 0 then "-" + Decimal(-v) else Decimal(v)
  }

  /** The text form of a raw value, as reg_raw_str formats it. */
  function RawText(c: Libc, ty: RegType, raw: uint32): string {
    match ty
    case U8 | U16 | U32 => Decimal(raw)
    case I8 | I16 | I32 => SignedDecimal(Signed(raw))
    case Float => c.general(raw)
    case Bool => if raw != 0 then "true" else "false"
  }

  lemma {:induction false} DecimalReads(n: nat)
    ensures AllDigits(Decimal(n), 10) && NumberOf(Decimal(n), 10) == n
    ensures forall k :: 0 <= k < |Decimal(n)| ==> IsDigit(Decimal(n)[k])
  {
    if n < 10 {
      assert Decimal(n)[..0] == "";
    } else {
      DecimalReads(n / 10);
      assert Decimal(n)[..|Decimal(n)| - 1] == Decimal(n / 10);
    }
  }

  lemma DecimalTrims(n: nat)
    ensures Trim(Decimal(n)) == Decimal(n) && IsDigit(At(Decimal(n), 0))
    ensures Trim("-" + Decimal(n)) == "-" + Decimal(n) && ("-" + Decimal(n))[1..] == Decimal(n)
  {
    DecimalReads(n);
  }

  lemma DecimalNumeral(n: nat)
    ensures Numeral(Decimal(n)) == Some(n)
  {
    DecimalReads(n);
  }

  lemma UnsignedTextOfDecimal(n: nat)
    ensures UnsignedText(Decimal(n)) == if n > 0xFFFF_FFFF then Refused(RangeError) else Raw(n)
  {
    DecimalNumeral(n);
    DecimalTrims(n);
  }

  lemma SignedTextOfDecimal(v: int)
    ensures SignedText(SignedDecimal(v)) == Int32(v)
  {
    var n: nat := if v < 0 then 0 - v else v;
    DecimalNumeral(n);
    DecimalTrims(n);
  }

  /** Printing a register and parsing the text gives the value back: every raw of every integer type,
      INT32_MIN included, and both truth values. */
  lemma PrintThenParse(c: Libc, ty: RegType, raw: uint32)
    requires ty != Float && (ty == Bool ==> raw <= 1)
    ensures ParseText(c, ty, RawText(c, ty, raw)) == Raw(raw)
  {
    match ty
    case Bool =>
      assert Lower("true") == "true" && Lower("false") == "false";
    case U8 | U16 | U32 =>
      UnsignedTextOfDecimal(raw);
    case I8 | I16 | I32 =>
      SignedTextOfDecimal(Signed(raw));
      UnsignedSigned(raw);
  }
}
