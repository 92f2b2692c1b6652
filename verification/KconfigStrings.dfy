/** String values on their way into a .config file and back: escape(), the
    quoted-string pattern of the loader, and unescape(). */
module KconfigStrings {
  import opened Basics

  /** str.replace of one character */
  function Replace(s: string, c: char, with: string): string {
    if s == "" then "" else (if s[0] == c then with else [s[0]]) + Replace(s[1..], c, with)
  }

  /** escape(): first every backslash is doubled, then every quote gets a backslash. */
  function Escape(s: string): string {
    Replace(Replace(s, '\\', "\\\\"), '"', "\\\"")
  }

  /** One pass that escapes character by character. */
  function EscapeEach(s: string): string {
    if s == "" then ""
    else (if s[0] == '\\' then "\\\\" else if s[0] == '"' then "\\\"" else [s[0]]) + EscapeEach(s[1..])
  }

  /** unescape(): a backslash followed by anything but a line feed becomes what follows it. */
  function Unescape(s: string): string {
    if s == "" then ""
    else if |s| >= 2 && s[0] == '\\' && s[1] != '\n' then [s[1]] + Unescape(s[2..])
    else [s[0]] + Unescape(s[1..])
  }

  /** How far the repeated group (?:[^\\"]|\\.)* of _conf_string_match reaches. */
  function Reach(s: string): nat {
    if s == "" || s[0] == '"' then 0
    else if s[0] != '\\' then 1 + Reach(s[1..])
    else if |s| >= 2 && s[1] != '\n' then 2 + Reach(s[2..])
    else 0
  }

  lemma {:induction false} ReachInside(s: string)
    ensures Reach(s) <= |s|
  {
    if s != "" && s[0] != '"' {
      if s[0] != '\\' { ReachInside(s[1..]); }
      else if |s| >= 2 { ReachInside(s[2..]); }
    }
  }

  /** _conf_string_match: the captured text, when the line begins with a quoted string.
      The two alternatives of the group start with different characters, so giving
      back a repetition never uncovers a closing quote. */
  function QuotedText(line: string): Option<string> {
    if line == "" || line[0] != '"' then None else
    ReachInside(line[1..]);
    var n := Reach(line[1..]);
    if n < |line| - 1 && line[1 + n] == '"' then Some(line[1..1 + n]) else None
  }

  lemma {:induction false} ReplaceConcat(a: string, b: string, c: char, with: string)
    ensures Replace(a + b, c, with) == Replace(a, c, with) + Replace(b, c, with)
  {
    if a == "" { assert a + b == b; }
    else {
      ReplaceConcat(a[1..], b, c, with);
      assert (a + b)[1..] == a[1..] + b;
    }
  }

  /** Escaping in two passes is escaping each character: no backslash is escaped twice. */
  lemma {:induction false} EscapeIsEach(s: string)
    ensures Escape(s) == EscapeEach(s)
  {
    if s != "" {
      EscapeIsEach(s[1..]);
      var head := if s[0] == '\\' then "\\\\" else [s[0]];
      ReplaceConcat(head, Replace(s[1..], '\\', "\\\\"), '"', "\\\"");
      if s[0] == '\\' {
        assert head[0] == '\\' && head[1..] == "\\" && head[1..][0] == '\\' && head[1..][1..] == "";
        assert Replace(head[1..], '"', "\\\"") == "\\";
      } else {
        assert head[1..] == "";
      }
    }
  }

  lemma {:induction false} ReachOfEscaped(s: string, rest: string)
    ensures Reach(EscapeEach(s) + "\"" + rest) == |EscapeEach(s)|
  {
    var line := EscapeEach(s) + "\"" + rest;
    if s == "" { assert line[0] == '"'; }
    else {
      ReachOfEscaped(s[1..], rest);
      var tail := EscapeEach(s[1..]) + "\"" + rest;
      if s[0] == '\\' || s[0] == '"' { assert line == ['\\', s[0]] + tail; assert line[2..] == tail; }
      else { assert line == [s[0]] + tail; assert line[1..] == tail; }
    }
  }

  lemma {:induction false} UnescapeOfEscaped(s: string)
    ensures Unescape(EscapeEach(s)) == s
  {
    if s != "" {
      UnescapeOfEscaped(s[1..]);
      var e := EscapeEach(s);
      if s[0] == '\\' || s[0] == '"' { assert e == ['\\', s[0]] + EscapeEach(s[1..]); assert e[2..] == EscapeEach(s[1..]); }
      else { assert e == [s[0]] + EscapeEach(s[1..]); assert e[1..] == EscapeEach(s[1..]); }
    }
  }

  /** Every string survives being written and read back, whatever follows the closing
      quote on the line: the pattern captures exactly the escaped text, and unescape()
      undoes escape(). */
  lemma StringRoundTrip(s: string, rest: string)
    ensures QuotedText("\"" + Escape(s) + "\"" + rest) == Some(Escape(s))
    ensures Unescape(Escape(s)) == s
  {
    EscapeIsEach(s);
    UnescapeOfEscaped(s);
    ReachOfEscaped(s, rest);
    var line := "\"" + Escape(s) + "\"" + rest;
    assert line[1..] == EscapeEach(s) + "\"" + rest;
    assert line[1 + |Escape(s)|] == '"';
    assert line[1..1 + |Escape(s)|] == Escape(s);
  }
}
