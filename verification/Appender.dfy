/** The bounded text appender of the MQTT adapter: one buffer, one flag that says whether everything fit. */
module Appender {
  import opened Fingerprint
  import Json
  import Seqs

  /** An appender's state: the text so far, the size of its buffer (NUL included), and the flag. */
  datatype Pen = Pen(text: string, size: nat, overflow: bool)

  /** What appending s does, however it is split into calls: nothing already written is touched, the flag
      stays clear exactly when it was clear and s fits, and then s follows the text in full. */
  ghost predicate Wrote(before: Pen, after: Pen, s: string) {
    && after.size == before.size
    && before.text <= after.text && |after.text| < after.size
    && (!after.overflow <==> !before.overflow && |before.text| + |s| < before.size)
    && (!after.overflow ==> after.text == before.text + s)
  }

  lemma WroteThen(a: Pen, b: Pen, c: Pen, s: string, r: string)
    requires Wrote(a, b, s) && Wrote(b, c, r)
    ensures Wrote(a, c, s + r)
  {
    if !c.overflow { assert a.text + s + r == a.text + (s + r); }
  }

  /** One more character of s. */
  lemma WroteNext(a: Pen, b: Pen, c: Pen, s: string, k: nat)
    requires k < |s| && Wrote(a, b, s[..k]) && Wrote(b, c, [s[k]])
    ensures Wrote(a, c, s[..k + 1])
  {
    WroteThen(a, b, c, s[..k], [s[k]]);
    assert s[..k + 1] == s[..k] + [s[k]];
  }

  lemma WroteAll(a: Pen, b: Pen, s: string)
    requires Wrote(a, b, s[..|s|])
    ensures Wrote(a, b, s)
  {
    assert s[..|s|] == s;
  }

  lemma WroteNothing(a: Pen)
    requires |a.text| < a.size
    ensures Wrote(a, a, "")
  {
    assert a.text + "" == a.text;
  }

  class Appender {
    const buf: array<char>
    var size: nat
    var len: nat
    var overflow: bool

    ghost predicate Valid()
      reads this
    {
      len < size <= buf.Length
    }

    ghost function View(): Pen
      requires Valid()
      reads this, buf
    {
      Pen(buf[..len], size, overflow)
    }

    constructor (buf: array<char>, size: nat)
      requires 0 < size <= buf.Length
      ensures Valid() && this.buf == buf && View() == Pen("", size, false)
    {
      this.buf := buf;
      this.size := size;
      len := 0;
      overflow := false;
    }

    /** ap_putc */
    method PutC(c: char)
      requires Valid()
      modifies this`len, this`overflow, buf
      ensures Valid() && Wrote(old(View()), View(), [c])
    {
      if len + 1 < size {
        buf[len] := c;
        len := len + 1;
        assert buf[..len] == old(buf[..len]) + [c];
      } else {
        overflow := true;
      }
      buf[len] := '\0';
    }

    /** ap_puts */
    method PutS(s: string)
      requires Valid()
      modifies this`len, this`overflow, buf
      ensures Valid() && Wrote(old(View()), View(), s)
    {
      WroteNothing(View());
      for k := 0 to |s|
        invariant Valid() && Wrote(old(View()), View(), s[..k])
      {
        label Before:
        PutC(s[k]);
        WroteNext(old(View()), old@Before(View()), View(), s, k);
      }
      WroteAll(old(View()), View(), s);
    }

    /** ap_printf, once the arguments are formatted: all of s, or nothing and the flag. */
    method Print(s: string)
      requires Valid()
      modifies this`len, this`overflow, buf
      ensures Valid() && Wrote(old(View()), View(), s)
    {
      var room := size - len;
      Format(s, if |s| < room then |s| else room - 1);
      if |s| >= room {
        overflow := true;
        buf[len] := '\0';
        assert buf[..len] == old(buf[..len]);
        return;
      }
      assert buf[..len + |s|] == buf[..len] + buf[len..len + |s|];
      len := len + |s|;
    }

    /** What vsnprintf leaves behind the text so far: the first n characters and a NUL. */
    method Format(s: string, n: nat)
      requires Valid() && n <= |s| && len + n < size
      modifies buf
      ensures buf[..len] == old(buf[..len]) && buf[len..len + n] == s[..n]
    {
      for k := 0 to n
        invariant buf[..len] == old(buf[..len])
        invariant forall j :: 0 <= j < k ==> buf[len + j] == s[j]
      {
        buf[len + k] := s[k];
      }
      buf[len + n] := '\0';
      assert forall j :: 0 <= j < n ==> buf[len..len + n][j] == s[..n][j];
    }

    /** One character of a JSON string. */
    method PutEscaped(c: char)
      requires Valid() && c != '\0'
      modifies this`len, this`overflow, buf
      ensures Valid() && Wrote(old(View()), View(), Json.Escape(c))
    {
      if c == '"' { PutS("\\\""); }
      else if c == '\\' { PutS("\\\\"); }
      else if c == '\n' { PutS("\\n"); }
      else if c == '\r' { PutS("\\r"); }
      else if c == '\t' { PutS("\\t"); }
      else if c as int >= 0x20 { PutC(c); }
      else { Print("\\u00" + [Json.HexDigit(c as int / 16), Json.HexDigit(c as int % 16)]); }
    }

    /** ap_json_str: one character at a time. */
    method PutJson(s: string)
      requires Valid() && CText(s)
      modifies this`len, this`overflow, buf
      ensures Valid() && Wrote(old(View()), View(), Json.JsonString(s))
    {
      PutC('"');
      for k := 0 to |s|
        invariant Valid() && Wrote(old(View()), View(), "\"" + Json.Body(s[..k]))
      {
        label Before:
        var c := s[k];
        PutEscaped(c);
        WroteThen(old(View()), old@Before(View()), View(), "\"" + Json.Body(s[..k]), Json.Escape(c));
        Json.EscapeStep(s, k);
        Seqs.Assoc("\"", Json.Body(s[..k]), Json.Escape(c));
      }
      label Last:
      PutC('"');
      assert s[..|s|] == s;
      WroteThen(old(View()), old@Last(View()), View(), "\"" + Json.Body(s), "\"");
    }

    /** Forget everything after the first `before` characters, and that something did not fit. */
    method Rollback(before: nat)
      requires Valid() && before <= len
      modifies this`len, this`overflow, buf
      ensures Valid() && View() == Pen(old(View()).text[..before], old(View()).size, false)
    {
      overflow := false;
      len := before;
      buf[len] := '\0';
      assert buf[..before] == old(buf[..before]);
      assert old(buf[..len])[..before] == old(buf[..before]);
    }
  }
}
