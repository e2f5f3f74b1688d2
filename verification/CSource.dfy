/** String literals in generated C: how a text is written between the quotes, and what a compiler reads
    there (ISO C11, sections 5.1.1.2 and 6.4.5). */
module CSource {
  import opened Words
  import Seqs

  // ----- what a compiler reads -----

  /** What `??` and this character stand for. */
  function Trigraph(c: char): Option<char> {
    match c
    case '=' => Some('#') case '(' => Some('[') case '/' => Some('\\') case ')' => Some(']') case '\'' => Some('^')
    case '<' => Some('{') case '!' => Some('|') case '>' => Some('}') case '-' => Some('~')
    case _ => None
  }

  /** Translation phase 1: trigraphs are replaced wherever they are. */
  function Phase1(s: string): string
    decreases |s|
  {
    if |s| >= 3 && s[0] == '?' && s[1] == '?' && Trigraph(s[2]).Some? then [Trigraph(s[2]).value] + Phase1(s[3..])
    else if s == "" then ""
    else [s[0]] + Phase1(s[1..])
  }

  /** The characters between the quotes, escapes resolved. None: a newline leaves the literal unterminated, a
      quote ends it early, or it has an escape other than the three below. */
  function Unescaped(s: string): (r: Option<string>)
    decreases |s|
  {
    if s == "" then Some("")
    else if s[0] == '\n' || s[0] == '"' then None
    else if s[0] != '\\' then Prefixed(s[0], Unescaped(s[1..]))
    else if |s| >= 2 && (s[1] == '\\' || s[1] == '"' || s[1] == '?') then Prefixed(s[1], Unescaped(s[2..]))
    else None
  }

  function Prefixed(c: char, rest: Option<string>): Option<string> {
    if rest.Some? then Some([c] + rest.value) else None
  }

  /** The string a literal with this text between its quotes stands for. */
  function Literal(text: string): Option<string> {
    Unescaped(Phase1(text))
  }

  // ----- what the generator writes -----

  /** str.replace, of one character. */
  function Replace(s: string, c: char, with: string): string {
    if s == "" then "" else (if s[0] == c then with else [s[0]]) + Replace(s[1..], c, with)
  }

  /** c_string, less the quotes around it. */
  function CString(s: string): string {
    Replace(Replace(Replace(s, '\\', "\\\\"), '"', "\\\""), '?', "\\?")
  }

  /** What the three passes make of one character. */
  function Escaped(c: char): string {
    if c == '\\' || c == '"' || c == '?' then ['\\', c] else [c]
  }

  lemma {:induction false} ReplaceConcat(a: string, b: string, c: char, with: string)
    ensures Replace(a + b, c, with) == Replace(a, c, with) + Replace(b, c, with)
  {
    if a == "" {
      assert a + b == b;
    } else {
      assert (a + b)[1..] == a[1..] + b;
      ReplaceConcat(a[1..], b, c, with);
      Seqs.Assoc(if a[0] == c then with else [a[0]], Replace(a[1..], c, with), Replace(b, c, with));
    }
  }

  lemma ReplaceOne(x: char, c: char, with: string)
    ensures Replace([x], c, with) == if x == c then with else [x]
  {
    assert [x][1..] == "";
  }

  lemma ReplaceTwo(x: char, y: char, c: char, with: string)
    ensures Replace([x, y], c, with) == (if x == c then with else [x]) + if y == c then with else [y]
  {
    assert [x, y][1..] == [y];
    ReplaceOne(y, c, with);
  }

  /** The passes do not get into each other's way. */
  lemma CStringOne(x: char)
    ensures CString([x]) == Escaped(x)
  {
    ReplaceOne(x, '\\', "\\\\");
    if x == '\\' {
      ReplaceTwo('\\', '\\', '"', "\\\"");
      ReplaceTwo('\\', '\\', '?', "\\?");
    } else {
      ReplaceOne(x, '"', "\\\"");
      if x == '"' { ReplaceTwo('\\', '"', '?', "\\?"); } else { ReplaceOne(x, '?', "\\?"); }
    }
  }

  lemma CStringNext(s: string)
    requires s != ""
    ensures CString(s) == Escaped(s[0]) + CString(s[1..])
  {
    var a, b := [s[0]], s[1..];
    assert s == a + b;
    ReplaceConcat(a, b, '\\', "\\\\");
    var a1, b1 := Replace(a, '\\', "\\\\"), Replace(b, '\\', "\\\\");
    ReplaceConcat(a1, b1, '"', "\\\"");
    var a2, b2 := Replace(a1, '"', "\\\""), Replace(b1, '"', "\\\"");
    ReplaceConcat(a2, b2, '?', "\\?");
    CStringOne(s[0]);
  }

  // ----- the one undoes the other -----

  /** No two question marks in a row, so no trigraph. */
  predicate NoTrigraph(s: string) {
    forall k :: 0 <= k < |s| - 1 ==> !(s[k] == '?' && s[k + 1] == '?')
  }

  lemma {:induction false} Phase1Keeps(s: string)
    requires NoTrigraph(s)
    ensures Phase1(s) == s
    decreases |s|
  {
    if s != "" {
      assert |s| >= 2 ==> !(s[0] == '?' && s[0 + 1] == '?');
      Phase1Keeps(s[1..]);
    }
  }

  /** Every question mark written has a backslash in front of it. */
  lemma {:induction false} CStringSafe(s: string)
    ensures NoTrigraph(CString(s)) && (CString(s) != "" ==> CString(s)[0] != '?')
  {
    if s != "" {
      CStringSafe(s[1..]);
      CStringNext(s);
      SafeNext(Escaped(s[0]), CString(s[1..]));
    }
  }

  lemma SafeNext(a: string, b: string)
    requires NoTrigraph(a) && NoTrigraph(b) && (b != "" ==> b[0] != '?')
    ensures NoTrigraph(a + b)
  {
  }

  lemma {:induction false} UnescapedCString(s: string)
    requires '\n' !in s
    ensures Unescaped(CString(s)) == Some(s)
  {
    if s != "" {
      UnescapedCString(s[1..]);
      CStringNext(s);
      UnescapedNext(s[0], CString(s[1..]));
      assert [s[0]] + s[1..] == s;
    }
  }

  lemma UnescapedNext(c: char, rest: string)
    requires c != '\n'
    ensures Unescaped(Escaped(c) + rest) == Prefixed(c, Unescaped(rest))
  {
    var text := Escaped(c) + rest;
    if |Escaped(c)| == 2 { assert text[2..] == rest; } else { assert text[1..] == rest; }
  }

  /** A compiler reads back any text without a newline from what c_string writes. */
  lemma LiteralOfCString(s: string)
    requires '\n' !in s
    ensures Literal(CString(s)) == Some(s)
  {
    CStringSafe(s);
    Phase1Keeps(CString(s));
    UnescapedCString(s);
  }

  /** Written as it is, a text reads as itself exactly when it needs no escape, if it has no question mark. */
  lemma {:induction false} UnescapedPlain(s: string)
    requires forall k :: 0 <= k < |s| ==> s[k] != '\\'
    ensures Unescaped(s) == if '\n' in s || '"' in s then None else Some(s)
  {
    if s != "" {
      UnescapedPlain(s[1..]);
      assert s == [s[0]] + s[1..];
    }
  }

  lemma LiteralOfPlain(s: string)
    requires forall k :: 0 <= k < |s| ==> s[k] != '\\' && s[k] != '?'
    ensures Literal(s) == if '\n' in s || '"' in s then None else Some(s)
  {
    Phase1Keeps(s);
    UnescapedPlain(s);
  }
}
