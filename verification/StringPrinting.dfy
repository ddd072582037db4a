/** print_escaped and operator<< (string.cpp 17-40, 246-255), and the reader that undoes them. */
module StringPrinting {
  import opened CString
  import opened OwnerHeap
  import opened Sequences

  class Stream {
    var text: string

    constructor ()
      ensures text == ""
    {
      text := "";
    }

    method Put(s: string)
      modifies this
      ensures text == old(text) + s
    {
      text := text + s;
    }
  }

  // ----- Escaping

  function EscapeChar(c: char): (r: string)
    ensures r != "" && r[0] != '"'
  {
    if c == '\\' then "\\\\"
    else if c == '"' then "\\\""
    else if c == '\n' then "\\n"
    else if c == '\r' then "\\r"
    else if c == '\t' then "\\t"
    else [c]
  }

  function Escape(s: string): string {
    if s == "" then "" else EscapeChar(s[0]) + Escape(s[1..])
  }

  /** One turn of the loop of print_escaped (19-38). */
  method PrintChar(out: Stream, c: char)
    modifies out
    ensures out.text == old(out.text) + EscapeChar(c)
  {
    if c == '\\' {
      out.Put("\\\\");
    } else if c == '"' {
      out.Put("\\\"");
    } else if c == '\n' {
      out.Put("\\n");
    } else if c == '\r' {
      out.Put("\\r");
    } else if c == '\t' {
      out.Put("\\t");
    } else {
      out.Put([c]);
    }
  }

  /** print_escaped: walk the characters up to the terminator. */
  method PrintEscaped(out: Stream, value: Terminated)
    modifies out
    ensures out.text == old(out.text) + Escape(CStr(value))
  {
    var cursor := 0;
    while value[cursor] != '\0'
      invariant 0 <= cursor < |value| && '\0' in value[cursor..]
      invariant out.text + Escape(CStr(value[cursor..])) == old(out.text) + Escape(CStr(value))
      decreases |value| - cursor
    {
      EscapeStep(value[cursor..]);
      assert value[cursor..][1..] == value[cursor + 1..];
      Joined(out.text, EscapeChar(value[cursor]), Escape(CStr(value[cursor + 1..])));
      PrintChar(out, value[cursor]);
      cursor := cursor + 1;
    }
    assert CStr(value[cursor..]) == "";
  }

  lemma EscapeStep(data: string)
    requires '\0' in data && data[0] != '\0'
    ensures '\0' in data[1..] && Escape(CStr(data)) == EscapeChar(data[0]) + Escape(CStr(data[1..]))
  {
    assert data == [data[0]] + data[1..];
    assert CStr(data)[1..] == CStr(data[1..]);
  }

  /** A character that is written as it is. */
  predicate Ordinary(c: char) { c != '\\' && c != '"' && c != '\n' && c != '\r' && c != '\t' }

  /** The five escapes. */
  lemma EscapeLiterals()
    ensures Escape("\\") == "\\\\" && Escape("\"") == "\\\""
    ensures Escape("\n") == "\\n" && Escape("\r") == "\\r" && Escape("\t") == "\\t"
  {
    assert "\\"[1..] == "" && "\""[1..] == "" && "\n"[1..] == "" && "\r"[1..] == "" && "\t"[1..] == "";
  }

  /** Everything else is written as it is. */
  lemma {:induction false} EscapeOrdinary(s: string)
    requires forall c :: c in s ==> Ordinary(c)
    ensures Escape(s) == s
  {
    if s != "" {
      EscapeOrdinary(s[1..]);
      assert s == [s[0]] + s[1..] && s[0] in s;
    }
  }

  /** Escaping works character by character, so that the two lemmas above say what it does to any text. */
  lemma {:induction false} EscapeConcat(s: string, t: string)
    ensures Escape(s + t) == Escape(s) + Escape(t)
  {
    if s == "" {
      assert s + t == t;
    } else {
      EscapeConcat(s[1..], t);
      assert (s + t)[1..] == s[1..] + t && (s + t)[0] == s[0];
      Joined(EscapeChar(s[0]), Escape(s[1..]), Escape(t));
    }
  }

  /** No line break or tab is left, whatever the text. */
  lemma {:induction false} NoControlCharacters(s: string)
    ensures '\n' !in Escape(s) && '\r' !in Escape(s) && '\t' !in Escape(s)
  {
    if s != "" {
      NoControlCharacters(s[1..]);
    }
  }

  // ----- Reading back

  /** The character after a backslash. */
  function UnescapeChar(c: char): Option<char> {
    if c == '\\' then Some('\\')
    else if c == '"' then Some('"')
    else if c == 'n' then Some('\n')
    else if c == 'r' then Some('\r')
    else if c == 't' then Some('\t')
    else None
  }

  /** Reads up to the first quote that is not escaped: the text before it, and what follows it. */
  function ReadQuoted(s: string): Option<(string, string)> {
    if s == "" then None
    else if s[0] == '"' then Some(("", s[1..]))
    else if s[0] == '\\' then
      if |s| == 1 || UnescapeChar(s[1]).None? then None
      else
        match ReadQuoted(s[2..])
        case None => None
        case Some((text, rest)) => Some(([UnescapeChar(s[1]).value] + text, rest))
    else
      match ReadQuoted(s[1..])
      case None => None
      case Some((text, rest)) => Some(([s[0]] + text, rest))
  }

  lemma ReadEscaped(c: char, tail: string)
    requires ReadQuoted(tail).Some?
    ensures ReadQuoted(EscapeChar(c) + tail) == Some(([c] + ReadQuoted(tail).value.0, ReadQuoted(tail).value.1))
  {
    var whole := EscapeChar(c) + tail;
    if |EscapeChar(c)| == 2 {
      assert whole[2..] == tail;
      assert whole[0] == '\\' && UnescapeChar(whole[1]) == Some(c);
    } else {
      assert whole[1..] == tail;
      assert whole[0] == c && c != '"' && c != '\\';
    }
  }

  /** The escaped text has no unescaped quote, and determines the text: reading it back stops exactly
      at the quote that follows and yields every text that was escaped. */
  lemma {:induction false} EscapeReversible(s: string, rest: string)
    ensures ReadQuoted(Escape(s) + ("\"" + rest)) == Some((s, rest))
  {
    var end := "\"" + rest;
    if s == "" {
      assert Escape(s) + end == end && end[1..] == rest;
    } else {
      EscapeReversible(s[1..], rest);
      ReadEscaped(s[0], Escape(s[1..]) + end);
      assert Escape(s) + end == EscapeChar(s[0]) + (Escape(s[1..]) + end);
      assert s == [s[0]] + s[1..];
    }
  }

  // ----- operator<<

  const HEAD := "String{unique="
  const MIDDLE := ", value="
  const NULL_TAIL := "<null>}"

  function Show(unique: bool, value: Option<string>): string {
    HEAD + (if unique then "1" else "0") + MIDDLE +
    (if value.None? then NULL_TAIL else "\"" + Escape(value.value) + "\"}")
  }

  function ParseValue(s: string): Option<Option<string>> {
    if s == NULL_TAIL then Some(None)
    else if s == "" || s[0] != '"' then None
    else
      match ReadQuoted(s[1..])
      case None => None
      case Some((text, rest)) => if rest == "}" then Some(Some(text)) else None
  }

  function Parse(s: string): Option<(bool, Option<string>)> {
    var n := |HEAD| + 1 + |MIDDLE|;
    if |s| < n || s[..|HEAD|] != HEAD || s[|HEAD| + 1..n] != MIDDLE || s[|HEAD|] !in "01" then None
    else
      match ParseValue(s[n..])
      case None => None
      case Some(value) => Some((s[|HEAD|] == '1', value))
  }

  lemma ShowParts(unique: bool, value: Option<string>)
    ensures var n, tail := |HEAD| + 1 + |MIDDLE|, if value.None? then NULL_TAIL else "\"" + Escape(value.value) + "\"}";
            var s := Show(unique, value);
            && |s| >= n && s[..|HEAD|] == HEAD && s[|HEAD|] == (if unique then '1' else '0')
            && s[|HEAD| + 1..n] == MIDDLE && s[n..] == tail
  {
  }

  /** The printed form determines the bit, null or not, and the text. */
  lemma ShowReversible(unique: bool, value: Option<string>)
    ensures Parse(Show(unique, value)) == Some((unique, value))
  {
    ShowParts(unique, value);
    if value.Some? {
      var tail := "\"" + Escape(value.value) + "\"}";
      assert tail[1..] == Escape(value.value) + ("\"" + "}");
      EscapeReversible(value.value, "}");
      assert tail[0] != NULL_TAIL[0];
    }
  }

  /** Two Strings that print alike have the same bit and compare equal. */
  lemma ShowInjective(u: bool, v: Option<string>, w: bool, x: Option<string>)
    requires Show(u, v) == Show(w, x)
    ensures u == w && v == x
  {
    ShowReversible(u, v);
    ShowReversible(w, x);
  }

  /** A line break between ordinary texts. */
  lemma EscapeLineBreak(s: string, t: string)
    requires (forall c :: c in s ==> Ordinary(c)) && (forall c :: c in t ==> Ordinary(c))
    ensures Escape(s + ("\n" + t)) == s + ("\\n" + t)
  {
    EscapeConcat(s, "\n" + t);
    EscapeConcat("\n", t);
    EscapeOrdinary(s);
    EscapeOrdinary(t);
    EscapeLiterals();
  }

  lemma EscapedLine()
    ensures Escape("line\nvalue") == "line\\nvalue"
  {
    EscapeLineBreak("line", "value");
    assert "line\nvalue" == "line" + ("\n" + "value");
    assert "line\\nvalue" == "line" + ("\\n" + "value");
  }

  /** Printed in full: a null String, and a text with a line break, shared and not. */
  lemma ShowNullLiteral()
    ensures Show(false, None) == "String{unique=0, value=<null>}"
  {
  }

  lemma ShowSharedLiteral()
    ensures Show(false, Some("line\nvalue")) == "String{unique=0, value=\"line\\nvalue\"}"
  {
    EscapedLine();
  }

  lemma ShowUniqueLiteral()
    ensures Show(true, Some("line\nvalue")) == "String{unique=1, value=\"line\\nvalue\"}"
  {
    EscapedLine();
  }

  /** operator<< */
  method Print(out: Stream, s: String)
    modifies out
    ensures var value := if s.block == null then None else Some(CStr(s.block.data));
            out.text == old(out.text) + Show(s.block != null && s.bit, value)
  {
    out.Put(HEAD);
    out.Put(if s.block != null && s.bit then "1" else "0");
    out.Put(MIDDLE);
    ghost var head := HEAD + (if s.block != null && s.bit then "1" else "0") + MIDDLE;
    assert out.text == old(out.text) + head;
    if s.block == null {
      out.Put(NULL_TAIL);
      return;
    }
    out.Put("\"");
    PrintEscaped(out, s.block.data);
    out.Put("\"}");
    assert out.text == old(out.text) + (head + ("\"" + Escape(CStr(s.block.data)) + "\"}"));
  }
}
