/** JSON string escaping (RFC 8259, section 7), specified once: the CLI's run-flushing writer and the
    MQTT adapter's per-character writer both produce this text, and decoding it gives the string back. */
module Json {
  import opened Fingerprint
  import Seqs

  function HexDigit(d: nat): char
    requires d < 16
  {
    if d < 10 then ('0' as int + d) as char else ('a' as int + d - 10) as char
  }

  /** One character of a C string, as JSON: quote, backslash, newline, return and tab by name, other
      control characters as \u00xx. */
  function Escape(c: char): (s: string)
    ensures 1 <= |s| <= 6
  {
    if c == '"' then "\\\""
    else if c == '\\' then "\\\\"
    else if c == '\n' then "\\n"
    else if c == '\r' then "\\r"
    else if c == '\t' then "\\t"
    else if c as int < 0x20 then "\\u00" + [HexDigit(c as int / 16), HexDigit(c as int % 16)]
    else [c]
  }

  predicate Plain(c: char) {
    c as int >= 0x20 && c != '"' && c != '\\'
  }

  function Body(s: string): string {
    if s == "" then "" else Body(s[..|s| - 1]) + Escape(s[|s| - 1])
  }

  function JsonString(s: string): string {
    "\"" + Body(s) + "\""
  }

  lemma {:induction false} BodyConcat(a: string, b: string)
    ensures Body(a + b) == Body(a) + Body(b)
  {
    if b == "" {
      assert a + b == a;
    } else {
      assert (a + b)[..|a + b| - 1] == a + b[..|b| - 1];
      BodyConcat(a, b[..|b| - 1]);
      Seqs.Assoc(Body(a), Body(b[..|b| - 1]), Escape(b[|b| - 1]));
    }
  }

  lemma PlainEscape(c: char)
    requires Plain(c)
    ensures Escape(c) == [c]
  {
  }

  lemma {:induction false} PlainBody(s: string)
    requires forall k :: 0 <= k < |s| ==> Plain(s[k])
    ensures Body(s) == s
  {
    if s != "" {
      PlainEscape(s[|s| - 1]);
      PlainBody(s[..|s| - 1]);
      assert s == s[..|s| - 1] + [s[|s| - 1]];
    }
  }

  lemma {:induction false} BodyLength(s: string)
    ensures |s| <= |Body(s)| <= 6 * |s|
  {
    if s != "" { BodyLength(s[..|s| - 1]); }
  }

  lemma BodyOne(c: char)
    ensures Body([c]) == Escape(c)
  {
    assert [c][..0] == "";
  }

  // ----- the CLI's writer: runs of plain characters in one write -----

  /** Some run of plain characters is too long for the 16-bit length of a write. */
  ghost predicate LongRun(s: string) {
    exists a, b :: PlainRun(s, a, b) && b - a >= 0x1_0000
  }

  ghost predicate PlainRun(s: string, a: int, b: int) {
    0 <= a <= b <= |s| && forall k :: a <= k < b ==> Plain(s[k])
  }

  lemma CutAt(s: string, run: nat, i: nat)
    requires run <= i <= |s|
    ensures s[..run] + s[run..i] == s[..i]
  {
  }

  lemma FlushStep(s: string, run: nat, i: nat)
    requires run <= i <= |s| && PlainRun(s, run, i)
    ensures Body(s[..i]) == Body(s[..run]) + s[run..i]
  {
    assert forall k :: 0 <= k < i - run ==> s[run..i][k] == s[run + k];
    PlainBody(s[run..i]);
    BodyConcat(s[..run], s[run..i]);
    CutAt(s, run, i);
  }

  lemma EscapeStep(s: string, i: nat)
    requires i < |s|
    ensures Body(s[..i + 1]) == Body(s[..i]) + Escape(s[i])
  {
    assert s[..i + 1][..i] == s[..i];
  }

  /** No run of plain characters ending by `to` is too long. */
  ghost predicate ShortRuns(s: string, to: nat) {
    forall a, b :: PlainRun(s, a, b) && b <= to ==> b - a < 0x1_0000
  }

  lemma ShortRunsGrow(s: string, run: nat, i: nat)
    requires run <= i <= |s| && ShortRuns(s, run) && i - run < 0x1_0000
    requires run > 0 ==> !Plain(s[run - 1])
    ensures ShortRuns(s, i)
    ensures i < |s| && !Plain(s[i]) ==> ShortRuns(s, i + 1)
  {
    forall a, b | PlainRun(s, a, b) && b <= i ensures b - a < 0x1_0000 {
    }
  }

  /** What the writer has produced when the run that starts at `run` is pending: right so far, or short of
      a run that was cut. */
  ghost predicate Progress(s: string, run: nat, out: string, cut: bool)
    requires run <= |s|
  {
    if cut then |out| < 1 + |Body(s[..run])| && LongRun(s)
    else out == "\"" + Body(s[..run]) && ShortRuns(s, run)
  }

  /** Write the pending run s[run..i]; the transport's length argument is a uint16. */
  method Flush(s: string, run: nat, i: nat, out: string, ghost cut: bool) returns (now: string, ghost cutNow: bool)
    requires run <= i <= |s| && PlainRun(s, run, i) && Progress(s, run, out, cut)
    requires run > 0 ==> !Plain(s[run - 1])
    ensures Progress(s, i, now, cutNow)
    ensures i < |s| && !Plain(s[i]) && !cutNow ==> ShortRuns(s, i + 1)
  {
    now := out + s[run..run + (i - run) % 0x1_0000];
    cutNow := cut || i - run >= 0x1_0000;
    FlushStep(s, run, i);
    if cutNow {
      if i - run >= 0x1_0000 { CutRun(s, run, i); }
    } else {
      WholeRun(s, run, i);
      ShortRunsGrow(s, run, i);
      Seqs.Assoc("\"", Body(s[..run]), s[run..i]);
    }
  }

  lemma CutRun(s: string, run: nat, i: nat)
    requires run + 0x1_0000 <= i <= |s| && PlainRun(s, run, i)
    ensures LongRun(s) && |s[run..run + (i - run) % 0x1_0000]| < i - run
  {
  }

  lemma WholeRun(s: string, run: nat, i: nat)
    requires run <= i <= |s| && i - run < 0x1_0000
    ensures s[run..run + (i - run) % 0x1_0000] == s[run..i]
  {
  }

  lemma EscapeProgress(s: string, i: nat, out: string, cut: bool)
    requires i < |s| && Progress(s, i, out, cut) && (!cut ==> ShortRuns(s, i + 1))
    ensures Progress(s, i + 1, out + Escape(s[i]), cut)
  {
    EscapeStep(s, i);
    Seqs.Assoc("\"", Body(s[..i]), Escape(s[i]));
  }

  /** The run, then the character that ends it. */
  method FlushAndEscape(s: string, run: nat, i: nat, out: string, ghost cut: bool)
    returns (now: string, ghost cutNow: bool)
    requires run <= i < |s| && PlainRun(s, run, i) && !Plain(s[i]) && Progress(s, run, out, cut)
    requires run > 0 ==> !Plain(s[run - 1])
    ensures Progress(s, i + 1, now, cutNow)
  {
    now, cutNow := Flush(s, run, i, out, cut);
    EscapeProgress(s, i, now, cutNow);
    now := now + Escape(s[i]);
  }

  /** Halfway through: the run that starts at `run` is still pending. */
  ghost predicate Writing(s: string, run: nat, i: nat, out: string, cut: bool) {
    && run <= i <= |s| && PlainRun(s, run, i) && Progress(s, run, out, cut)
    && (run > 0 ==> !Plain(s[run - 1]))
  }

  /** One turn of the writer's loop. */
  method WriteNext(s: string, run: nat, i: nat, out: string, ghost cut: bool)
    returns (runNow: nat, now: string, ghost cutNow: bool)
    requires i < |s| && Writing(s, run, i, out, cut)
    ensures Writing(s, runNow, i + 1, now, cutNow)
  {
    runNow, now, cutNow := run, out, cut;
    if !Plain(s[i]) {
      now, cutNow := FlushAndEscape(s, run, i, out, cut);
      runNow := i + 1;
    }
  }

  /** The output can be wrong: a string of 65536 letters is one such run. */
  lemma LongRunExists()
    ensures var s := seq(0x1_0000, _ => 'a'); CText(s) && LongRun(s)
  {
    var s := seq(0x1_0000, _ => 'a');
    assert PlainRun(s, 0, 0x1_0000);
  }

  lemma Closing(s: string, out: string, cut: bool)
    requires Progress(s, |s|, out, cut)
    ensures out + "\"" == JsonString(s) <==> !LongRun(s)
  {
    assert s[..|s|] == s;
    if !cut {
      assert !LongRun(s);
    } else {
      assert |out + "\""| < |JsonString(s)|;
    }
  }

  /** json_str, with everything handed to the transport collected in `out`. The output is right exactly
      when no run of plain characters reaches 65536. */
  method CliJsonStr(s: string) returns (out: string)
    requires CText(s)
    ensures out == JsonString(s) <==> !LongRun(s)
  {
    var run, i := 0, 0;
    out := "\"";
    ghost var cut := false;
    while i < |s|
      invariant i <= |s| && Writing(s, run, i, out, cut)
    {
      run, out, cut := WriteNext(s, run, i, out, cut);
      i := i + 1;
    }
    out, cut := Flush(s, run, i, out, cut);
    Closing(s, out, cut);
    out := out + "\"";
  }

  // ----- decoding -----

  function HexValue(c: char): nat {
    if '0' <= c <= '9' then c as int - '0' as int
    else if 'a' <= c <= 'f' then c as int - 'a' as int + 10
    else 16
  }

  /** The character at the front of escaped text, and how much of the text it takes. */
  datatype Front = NoCharacter | Front(c: char, n: nat)

  /** NoCharacter at a quote or on malformed text. */
  function DecodeOne(s: string): (r: Front)
    ensures r.Front? ==> 0 < r.n <= |s|
  {
    if s == "" || s[0] == '"' then NoCharacter
    else if s[0] != '\\' then Front(s[0], 1)
    else if |s| < 2 then NoCharacter
    else
      match s[1]
      case '"' => Front('"', 2)
      case '\\' => Front('\\', 2)
      case 'n' => Front('\n', 2)
      case 'r' => Front('\r', 2)
      case 't' => Front('\t', 2)
      case 'u' =>
        if |s| >= 6 && s[2] == '0' && s[3] == '0' && HexValue(s[4]) < 2 && HexValue(s[5]) < 16 then
          Front((16 * HexValue(s[4]) + HexValue(s[5])) as char, 6)
        else NoCharacter
      case _ => NoCharacter
  }

  /** Decode up to the first unescaped quote: the string, and what follows that quote. */
  datatype Decoded = Malformed | Decoded(s: string, rest: string)

  function Decode(text: string): (r: Decoded)
    ensures r.Decoded? ==> |r.rest| < |text|
    decreases |text|
  {
    if text != "" && text[0] == '"' then Decoded("", text[1..])
    else
      match DecodeOne(text)
      case NoCharacter => Malformed
      case Front(c, n) =>
        match Decode(text[n..])
        case Malformed => Malformed
        case Decoded(s, rest) => Decoded([c] + s, rest)
  }

  lemma DecodeEscape(c: char, rest: string)
    requires 0 < c as int < 0x100
    ensures DecodeOne(Escape(c) + rest) == Front(c, |Escape(c)|)
  {
    var text := Escape(c) + rest;
    assert text[0] == Escape(c)[0];
    if |Escape(c)| > 1 { assert text[1] == Escape(c)[1]; }
    if |Escape(c)| == 6 {
      assert text[..6] == Escape(c);
      assert text[2] == '0' && text[3] == '0' && text[4] == HexDigit(c as int / 16) &&
             text[5] == HexDigit(c as int % 16);
    }
  }

  lemma {:induction false} BodyFirst(s: string)
    requires s != ""
    ensures Body(s) == Escape(s[0]) + Body(s[1..])
  {
    assert s == [s[0]] + s[1..];
    BodyConcat([s[0]], s[1..]);
    BodyOne(s[0]);
  }

  lemma DecodeStep(c: char, later: string)
    requires 0 < c as int < 0x100 && Decode(later).Decoded?
    ensures Decode(Escape(c) + later) == Decoded([c] + Decode(later).s, Decode(later).rest)
  {
    var text := Escape(c) + later;
    DecodeEscape(c, later);
    assert text[|Escape(c)|..] == later;
    assert text[0] == Escape(c)[0];
    assert Escape(c)[0] != '"';
  }

  /** Decoding what the writers emit gives the original string back, and stops at the closing quote: no
      quote before it is unescaped. */
  lemma {:induction false} EscapeRoundTrip(s: string, rest: string)
    requires CText(s)
    ensures Decode(Body(s) + "\"" + rest) == Decoded(s, rest)
    decreases |s|
  {
    if s == "" {
      assert Body(s) + "\"" + rest == "\"" + rest;
    } else {
      var later := Body(s[1..]) + "\"" + rest;
      BodyFirst(s);
      assert Body(s) + "\"" + rest == Escape(s[0]) + later;
      EscapeRoundTrip(s[1..], rest);
      DecodeStep(s[0], later);
    }
  }
}
