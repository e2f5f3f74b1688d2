/** The CLI's line editor and tokeniser: which line a stream of bytes amounts to, and which words a line
    consists of. */
module CliLine {
  import opened Words
  import Seqs

  // ----- the line being typed -----

  predicate IsLineEnd(b: char) {
    b == '\n' || b == '\r'
  }

  predicate IsErase(b: char) {
    b as int == 8 || b as int == 0x7F
  }

  /** These bytes with backspaces applied, on a line of any length. */
  function Edited(bytes: string): string {
    if bytes == "" then ""
    else
      var line, b := Edited(bytes[..|bytes| - 1]), bytes[|bytes| - 1];
      if !IsErase(b) then line + [b]
      else if line == "" then "" else line[..|line| - 1]
  }

  /** The line outgrew a buffer of this size (its NUL included) at some moment, whatever was erased later. */
  ghost predicate Outgrew(bytes: string, size: nat) {
    exists k :: 0 <= k <= |bytes| && |Edited(bytes[..k])| >= size
  }

  /** What was typed since the last line end. */
  function Pending(stream: string): (bytes: string)
    ensures forall k :: 0 <= k < |bytes| ==> !IsLineEnd(bytes[k])
  {
    if stream == "" || IsLineEnd(stream[|stream| - 1]) then ""
    else Pending(stream[..|stream| - 1]) + [stream[|stream| - 1]]
  }

  /** The text before the first NUL. */
  function CString(s: string): (r: string)
    ensures r <= s && '\0' !in r && (|r| < |s| ==> s[|r|] == '\0')
  {
    if s == "" || s[0] == '\0' then "" else [s[0]] + CString(s[1..])
  }

  /** The line a line end hands over after these bytes, if any: not an empty one, not one that was cut. */
  ghost function Line(bytes: string, size: nat): Option<string> {
    if Outgrew(bytes, size) || Edited(bytes) == "" then None else Some(CString(Edited(bytes)))
  }

  /** Every line a stream makes the CLI execute, in order. */
  ghost function Lines(stream: string, size: nat): seq<string> {
    if stream == "" then []
    else
      var before, b := stream[..|stream| - 1], stream[|stream| - 1];
      if !IsLineEnd(b) then Lines(before, size)
      else
        match Line(Pending(before), size)
        case None => Lines(before, size)
        case Some(line) => Lines(before, size) + [line]
  }

  lemma OutgrewNext(bytes: string, b: char, size: nat)
    ensures Outgrew(bytes + [b], size) <==> Outgrew(bytes, size) || |Edited(bytes + [b])| >= size
  {
    var now := bytes + [b];
    if Outgrew(bytes, size) {
      var k :| 0 <= k <= |bytes| && |Edited(bytes[..k])| >= size;
      FrontOf(bytes, b, k);
    } else if |Edited(now)| >= size {
      FrontOf(bytes, b, |now|);
    }
    if Outgrew(now, size) {
      var k :| 0 <= k <= |now| && |Edited(now[..k])| >= size;
      FrontOf(bytes, b, k);
    }
  }

  lemma FrontOf(bytes: string, b: char, k: nat)
    requires k <= |bytes| + 1
    ensures (bytes + [b])[..k] == if k <= |bytes| then bytes[..k] else bytes + [b]
  {
  }

  lemma EditedNext(bytes: string, b: char)
    ensures Edited(bytes + [b]) == if !IsErase(b) then Edited(bytes) + [b]
                                   else if Edited(bytes) == "" then "" else Edited(bytes)[..|Edited(bytes)| - 1]
  {
    assert (bytes + [b])[..|bytes|] == bytes;
  }

  /** A text that types as itself. */
  predicate Typeable(line: string, size: nat) {
    0 < |line| < size && forall k :: 0 <= k < |line| ==> line[k] != '\0' && !IsLineEnd(line[k]) && !IsErase(line[k])
  }

  /** What its line end makes of it, in a buffer of any size. */
  lemma PlainLine(line: string, size: nat)
    requires Typeable(line, |line| + 1)
    ensures Line(line, size) == if |line| < size then Some(line) else None
    ensures Outgrew(line, size) <==> |line| >= size
  {
    PlainEdited(line, |line| + 1);
    PlainCString(line);
    if |line| < size {
      PlainEdited(line, size);
    } else {
      assert line[..|line|] == line;
    }
  }

  function Sent(lines: seq<string>): string {
    if lines == [] then "" else Sent(lines[..|lines| - 1]) + lines[|lines| - 1] + "\n"
  }

  lemma {:induction false} PlainEdited(line: string, size: nat)
    requires |line| < size && forall k :: 0 <= k < |line| ==> !IsErase(line[k])
    ensures Edited(line) == line && !Outgrew(line, size)
  {
    if line != "" {
      var front, b := line[..|line| - 1], line[|line| - 1];
      assert line == front + [b];
      PlainEdited(front, size);
      EditedNext(front, b);
      OutgrewNext(front, b, size);
    }
  }

  lemma {:induction false} PlainCString(s: string)
    requires '\0' !in s
    ensures CString(s) == s
  {
    if s != "" { PlainCString(s[1..]); }
  }

  lemma PendingNext(stream: string, b: char, size: nat)
    requires !IsLineEnd(b)
    ensures Pending(stream + [b]) == Pending(stream) + [b] && Lines(stream + [b], size) == Lines(stream, size)
  {
    assert (stream + [b])[..|stream|] == stream;
  }

  lemma NothingPending(stream: string)
    requires stream == "" || IsLineEnd(stream[|stream| - 1])
    ensures Pending(stream) == ""
  {
  }

  /** Until its line end, a line being sent is pending and executes nothing. */
  lemma {:induction false} TypedSoFar(before: string, line: string, size: nat)
    requires before == "" || IsLineEnd(before[|before| - 1])
    requires forall k :: 0 <= k < |line| ==> !IsLineEnd(line[k])
    ensures Pending(before + line) == line && Lines(before + line, size) == Lines(before, size)
  {
    if line == "" {
      assert before + line == before;
      NothingPending(before);
    } else {
      var front, b := line[..|line| - 1], line[|line| - 1];
      TypedSoFar(before, front, size);
      assert line == front + [b];
      Seqs.Assoc(before, front, [b]);
      PendingNext(before + front, b, size);
    }
  }

  /** Lines sent one after the other are executed exactly as sent. */
  lemma {:induction false} LinesOfSent(lines: seq<string>, size: nat)
    requires forall k :: 0 <= k < |lines| ==> Typeable(lines[k], size)
    ensures Lines(Sent(lines), size) == lines
  {
    if lines != [] {
      var front, line := lines[..|lines| - 1], lines[|lines| - 1];
      LinesOfSent(front, size);
      SentEnds(front);
      OneMoreLine(Sent(front), line, size);
      assert front + [line] == lines;
    }
  }

  lemma OneMoreLine(before: string, line: string, size: nat)
    requires before == "" || IsLineEnd(before[|before| - 1])
    requires Typeable(line, size)
    ensures Lines(before + line + "\n", size) == Lines(before, size) + [line]
  {
    TypedSoFar(before, line, size);
    PlainEdited(line, size);
    PlainCString(line);
    LinesEnd(before + line, '\n', size);
    assert Line(line, size) == Some(line);
  }

  /** Newline and return both end a line. */
  lemma EitherEnds(before: string, line: string, b: char, size: nat)
    requires before == "" || IsLineEnd(before[|before| - 1])
    requires Typeable(line, size) && b in ['\n', '\r']
    ensures Lines(before + line + [b], size) == Lines(before, size) + [line]
  {
    TypedSoFar(before, line, size);
    PlainEdited(line, size);
    PlainCString(line);
    LinesEnd(before + line, b, size);
  }

  lemma SentEnds(lines: seq<string>)
    ensures Sent(lines) == "" || IsLineEnd(Sent(lines)[|Sent(lines)| - 1])
  {
  }

  lemma LinesEnd(before: string, b: char, size: nat)
    requires IsLineEnd(b)
    ensures Lines(before + [b], size) == match Line(Pending(before), size)
                                         case None => Lines(before, size)
                                         case Some(line) => Lines(before, size) + [line]
  {
    assert (before + [b])[..|before|] == before;
  }

  // ----- words -----

  predicate IsBlank(c: char) {
    c == ' ' || c == '\t'
  }

  function BlankRun(s: string): (n: nat)
    ensures n <= |s| && (n < |s| ==> !IsBlank(s[n])) && forall k :: 0 <= k < n ==> IsBlank(s[k])
  {
    if s == "" || !IsBlank(s[0]) then 0 else 1 + BlankRun(s[1..])
  }

  function WordRun(s: string): (n: nat)
    ensures n <= |s| && (n < |s| ==> IsBlank(s[n])) && forall k :: 0 <= k < n ==> !IsBlank(s[k])
  {
    if s == "" || IsBlank(s[0]) then 0 else 1 + WordRun(s[1..])
  }

  /** The maximal runs of characters that are not blank, in order. */
  function WordsOf(s: string): (ws: seq<string>)
    ensures forall k :: 0 <= k < |ws| ==> IsWord(ws[k])
    decreases |s|
  {
    var r := s[BlankRun(s)..];
    if r == "" then [] else [r[..WordRun(r)]] + WordsOf(r[WordRun(r)..])
  }

  predicate IsWord(w: string) {
    w != "" && forall k :: 0 <= k < |w| ==> !IsBlank(w[k])
  }

  const JSON_FLAG := "--json"

  function WithoutFlag(ws: seq<string>): (r: seq<string>)
    ensures forall k :: 0 <= k < |r| ==> r[k] in ws && r[k] != JSON_FLAG
  {
    if ws == [] then [] else (if ws[0] == JSON_FLAG then [] else [ws[0]]) + WithoutFlag(ws[1..])
  }

  /** The arguments of a line: its words in order, the flag left out wherever it sits. */
  function Arguments(line: string): seq<string> {
    WithoutFlag(WordsOf(line))
  }

  predicate WantsJson(line: string) {
    JSON_FLAG in WordsOf(line)
  }

  /** Words separated by single spaces. */
  function Spaced(ws: seq<string>): string {
    if ws == [] then "" else if |ws| == 1 then ws[0] else ws[0] + " " + Spaced(ws[1..])
  }

  lemma {:induction false} WordRunConcat(w: string, rest: string)
    requires (forall k :: 0 <= k < |w| ==> !IsBlank(w[k])) && (rest == "" || IsBlank(rest[0]))
    ensures WordRun(w + rest) == |w|
  {
    if w == "" { assert w + rest == rest; } else {
      assert (w + rest)[1..] == w[1..] + rest;
      WordRunConcat(w[1..], rest);
    }
  }

  lemma {:induction false} WordsFirst(w: string, rest: string)
    requires IsWord(w) && (rest == "" || IsBlank(rest[0]))
    ensures WordsOf(w + rest) == [w] + WordsOf(rest)
  {
    var s := w + rest;
    assert s[0] == w[0];
    assert s[BlankRun(s)..] == s;
    WordRunConcat(w, rest);
    assert s[..|w|] == w && s[|w|..] == rest;
  }

  lemma {:induction false} WordsSkip(s: string)
    requires s != "" && IsBlank(s[0])
    ensures WordsOf(s) == WordsOf(s[1..])
  {
    assert s[BlankRun(s)..] == s[1..][BlankRun(s[1..])..];
  }

  lemma {:induction false} WordThenRest(w: string, rest: string)
    requires IsWord(w)
    ensures WordsOf(w + " " + rest) == [w] + WordsOf(rest)
  {
    assert w + " " + rest == w + (" " + rest);
    WordsFirst(w, " " + rest);
    WordsSkip(" " + rest);
    assert (" " + rest)[1..] == rest;
  }

  /** Splitting what was joined gives the words back. */
  lemma {:induction false} SplitJoined(ws: seq<string>)
    requires forall k :: 0 <= k < |ws| ==> IsWord(ws[k])
    ensures WordsOf(Spaced(ws)) == ws
  {
    if ws != [] {
      SplitJoined(ws[1..]);
      SplitNext(ws[0], ws[1..]);
      assert [ws[0]] + ws[1..] == ws;
    }
  }

  lemma SplitNext(w: string, rest: seq<string>)
    requires IsWord(w) && WordsOf(Spaced(rest)) == rest
    ensures WordsOf(Spaced([w] + rest)) == [w] + rest
  {
    assert ([w] + rest)[1..] == rest;
    if rest == [] { OneWord(w); } else { WordThenRest(w, Spaced(rest)); }
  }

  lemma OneWord(w: string)
    requires IsWord(w)
    ensures WordsOf(w) == [w]
  {
    var none := w[|w|..];
    WordsFirst(w, none);
    NoWords(none);
    assert w + none == w && [w] + [] == [w];
  }

  lemma NoWords(none: string)
    requires |none| == 0
    ensures WordsOf(none) == []
  {
  }

  lemma {:induction false} WithoutFlagNext(ws: seq<string>, w: string)
    ensures WithoutFlag(ws + [w]) == WithoutFlag(ws) + if w == JSON_FLAG then [] else [w]
  {
    if ws == [] {
      assert [w][1..] == [];
    } else {
      assert (ws + [w])[1..] == ws[1..] + [w];
      WithoutFlagNext(ws[1..], w);
    }
  }

  /** The next word of the text from p on: where it starts and ends. */
  lemma {:induction false} NextWord(text: string, p: nat, start: nat, end: nat)
    requires p <= |text| && start == p + BlankRun(text[p..]) <= |text|
    requires end == start + WordRun(text[start..]) <= |text|
    ensures start == |text| ==> WordsOf(text[p..]) == []
    ensures start < |text| ==> end > start && WordsOf(text[p..]) == [text[start..end]] + WordsOf(text[end..])
    ensures end < |text| ==> IsBlank(text[end]) && WordsOf(text[end..]) == WordsOf(text[end + 1..])
  {
    assert text[p..][BlankRun(text[p..])..] == text[start..];
    assert text[start..][..WordRun(text[start..])] == text[start..end];
    assert text[start..][WordRun(text[start..])..] == text[end..];
    if end < |text| {
      assert text[end..][1..] == text[end + 1..];
      WordsSkip(text[end..]);
    }
  }

  /** Nothing but blanks from p on. */
  lemma {:induction false} NoMoreWords(text: string, p: nat)
    requires p <= |text| && p + BlankRun(text[p..]) == |text|
    ensures WordsOf(text[p..]) == []
  {
    assert text[p..][BlankRun(text[p..])..] == "";
  }

  /** A space or a tab separates what comes before it from what comes after. */
  lemma {:induction false} BlankSeparates(a: string, c: char, b: string)
    requires c == ' ' || c == '\t'
    ensures WordsOf(a + [c] + b) == WordsOf(a) + WordsOf(b)
    decreases |a|
  {
    var whole := a + [c] + b;
    if a == "" {
      assert whole[1..] == b;
      WordsSkip(whole);
      assert [] + WordsOf(b) == WordsOf(b);
    } else if IsBlank(a[0]) {
      assert whole[1..] == a[1..] + [c] + b;
      WordsSkip(whole);
      WordsSkip(a);
      BlankSeparates(a[1..], c, b);
    } else {
      var w, rest := a[..WordRun(a)], a[WordRun(a)..];
      assert a == w + rest && whole == w + (rest + [c] + b);
      WordsFirst(w, rest);
      WordsFirst(w, rest + [c] + b);
      BlankSeparates(rest, c, b);
      Seqs.Assoc([w], WordsOf(rest), WordsOf(b));
    }
  }

  /** A text without either is one word. */
  lemma UnbrokenIsWord(s: string)
    requires s != "" && ' ' !in s && '\t' !in s
    ensures WordsOf(s) == [s]
  {
    OneWord(s);
  }

  /** Backspace and delete take back the character typed before them, and nothing when there is none. */
  lemma TakenBack(bytes: string, c: char, b: char)
    requires (b as int == 8 || b as int == 127) && c as int != 8 && c as int != 127
    ensures Edited(bytes + [c] + [b]) == Edited(bytes) && Edited([b]) == ""
  {
    EditedNext(bytes, c);
    EditedNext(bytes + [c], b);
    EditedNext("", b);
    assert "" + [b] == [b];
  }
}
