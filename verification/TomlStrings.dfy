/** TOML basic strings: how a string is written, and how TOML reads it back. */
module TomlStrings {
  import opened Options
  import opened TextFiles

  function HexDigit(n: nat): char
    requires n < 16
  {
    "0123456789ABCDEF"[n]
  }

  /** The escape of one character, as TomlString writes it. */
  function Escape(c: char): string {
    if c == '"' then "\\\""
    else if c == '\\' then "\\\\"
    else if c == '\n' then "\\n"
    else if c == '\r' then "\\r"
    else if c == '\t' then "\\t"
    else if c as int < 0x20 then "\\u00" + [HexDigit(c as int / 16), HexDigit(c as int % 16)]
    else [c]
  }

  function Escaped(s: string): string {
    if s == "" then "" else Escaped(s[..|s| - 1]) + Escape(s[|s| - 1])
  }

  function TomlString(s: string): string { "\"" + Escaped(s) + "\"" }

  method WriteEscape(c: char) returns (e: string)
    ensures e == Escape(c)
  {
    e := [c];
    if c == '"' {
      e := "\\\"";
    } else if c == '\\' {
      e := "\\\\";
    } else if c == '\n' {
      e := "\\n";
    } else if c == '\r' {
      e := "\\r";
    } else if c == '\t' {
      e := "\\t";
    } else if c as int < 0x20 {
      e := "\\u00" + [HexDigit(c as int / 16), HexDigit(c as int % 16)];
    }
  }

  method WriteTomlString(s: string) returns (out: string)
    ensures out == TomlString(s)
  {
    hide Escape;
    var b := "\"";
    for i := 0 to |s|
      invariant b == "\"" + Escaped(s[..i])
    {
      assert s[..i + 1][..i] == s[..i];
      var e := WriteEscape(s[i]);
      b := b + e;
    }
    assert s[..|s|] == s;
    out := b + "\"";
  }

  lemma EscapeIsOneLine(c: char)
    ensures OneLine(Escape(c))
  {
    if c as int < 0x20 {
      assert HexDigit(c as int / 16) != '\n' && HexDigit(c as int % 16) != '\n';
    }
  }

  lemma {:induction false} EscapedIsOneLine(s: string)
    ensures OneLine(Escaped(s))
  {
    if s != "" {
      EscapedIsOneLine(s[..|s| - 1]);
      EscapeIsOneLine(s[|s| - 1]);
    }
  }

  /** A written string stays on its line, whatever it holds. */
  lemma TomlStringIsOneLine(s: string)
    ensures OneLine(TomlString(s))
  {
    EscapedIsOneLine(s);
  }

  // ---------------------------------------------------------------- reading it back

  function HexValue(c: char): Option<nat> {
    if '0' <= c <= '9' then Some(c as int - '0' as int)
    else if 'A' <= c <= 'F' then Some(c as int - 'A' as int + 10)
    else if 'a' <= c <= 'f' then Some(c as int - 'a' as int + 10)
    else None
  }

  /** A \uXXXX escape of a scalar value. */
  function UnicodeEscape(t: string): Option<char> {
    if |t| < 4 then None
    else
      match (HexValue(t[0]), HexValue(t[1]), HexValue(t[2]), HexValue(t[3]))
      case (Some(a), Some(b), Some(c), Some(d)) =>
        var n := ((a * 16 + b) * 16 + c) * 16 + d;
        if 0 <= n < 0xD800 || 0xE000 <= n < 0x10000 then Some(n as char) else None
      case _ => None
  }

  /** Control characters a TOML basic string may not hold raw. */
  predicate MustBeEscaped(c: char) {
    c == '"' || c == '\\' || (c as int < 0x20 && c != '\t') || c as int == 0x7F
  }

  /** A string read, and what follows its closing quote. */
  datatype Reading = Reading(value: string, rest: string)

  /** The body of a basic string up to its closing quote, section "String" of TOML v1.0.0. */
  function ReadBody(t: string): (r: Option<Reading>)
    ensures r.Some? ==> |r.value.rest| < |t|
  {
    if t == "" then None
    else if t[0] == '"' then Some(Reading("", t[1..]))
    else if t[0] != '\\' then
      if MustBeEscaped(t[0]) then None else Cons(t[0], ReadBody(t[1..]))
    else if |t| < 2 then None
    else
      match t[1]
      case 'b' => Cons('\U{8}', ReadBody(t[2..]))
      case 't' => Cons('\t', ReadBody(t[2..]))
      case 'n' => Cons('\n', ReadBody(t[2..]))
      case 'f' => Cons('\U{c}', ReadBody(t[2..]))
      case 'r' => Cons('\r', ReadBody(t[2..]))
      case '"' => Cons('"', ReadBody(t[2..]))
      case '\\' => Cons('\\', ReadBody(t[2..]))
      case 'u' =>
        var c := UnicodeEscape(t[2..]);
        if c.Some? then Cons(c.value, ReadBody(t[6..])) else None
      case _ => None
  }

  function Cons(c: char, r: Option<Reading>): Option<Reading> {
    if r.Some? then Some(Reading([c] + r.value.value, r.value.rest)) else None
  }

  /** A quoted string at the start of a text. */
  function ReadString(t: string): (r: Option<Reading>)
    ensures r.Some? ==> |r.value.rest| < |t|
  {
    if t != "" && t[0] == '"' then ReadBody(t[1..]) else None
  }

  /** A text that is one quoted string. */
  function TomlValue(t: string): Option<string> {
    var r := ReadString(t);
    if r.Some? && r.value.rest == "" then Some(r.value.value) else None
  }

  lemma HexReadsBack(n: nat)
    requires n < 16
    ensures HexValue(HexDigit(n)) == Some(n)
  {
  }

  lemma ControlReadsBack(c: char, rest: string)
    requires c as int < 0x20
    ensures ReadBody("\\u00" + [HexDigit(c as int / 16), HexDigit(c as int % 16)] + rest) == Cons(c, ReadBody(rest))
  {
    var t := "\\u00" + [HexDigit(c as int / 16), HexDigit(c as int % 16)] + rest;
    HexReadsBack(c as int / 16);
    HexReadsBack(c as int % 16);
    assert t[6..] == rest && t[2..][0] == '0' && t[2..][1] == '0';
    assert UnicodeEscape(t[2..]) == Some(c);
  }

  lemma EscapeReadsBack(c: char, rest: string)
    ensures ReadBody(Escape(c) + rest) == if c as int == 0x7F then None else Cons(c, ReadBody(rest))
  {
    var t := Escape(c) + rest;
    if c == '"' || c == '\\' || c == '\n' || c == '\r' || c == '\t' {
      assert t[2..] == rest;
    } else if c as int < 0x20 {
      ControlReadsBack(c, rest);
    } else {
      assert t[1..] == rest;
    }
  }

  lemma {:induction false} EscapedPeels(s: string)
    requires s != ""
    ensures Escaped(s) == Escape(s[0]) + Escaped(s[1..])
  {
    var n := |s| - 1;
    if n > 0 {
      EscapedPeels(s[..n]);
      assert s[..n][1..] == s[1..][..n - 1];
    } else {
      assert s[..n] == "" && s[1..] == "";
    }
  }

  lemma FirstReadsBack(s: string, tail: string)
    requires s != ""
    ensures ReadBody(Escaped(s) + tail) ==
            if s[0] as int == 0x7F then None else Cons(s[0], ReadBody(Escaped(s[1..]) + tail))
  {
    hide ReadBody, Escape;
    EscapedPeels(s);
    EscapeReadsBack(s[0], Escaped(s[1..]) + tail);
    assert Escaped(s) + tail == Escape(s[0]) + (Escaped(s[1..]) + tail);
  }

  lemma {:induction false} EscapedReadsBack(s: string, rest: string)
    ensures ReadBody(Escaped(s) + ("\"" + rest)) == if '\U{7f}' in s then None else Some(Reading(s, rest))
    decreases |s|
  {
    if s == "" {
      assert ("" + ("\"" + rest))[1..] == rest;
    } else {
      hide ReadBody, Escaped;
      EscapedReadsBack(s[1..], rest);
      FirstReadsBack(s, "\"" + rest);
      assert s == [s[0]] + s[1..];
    }
  }

  /** A written string reads back, with whatever follows it, exactly when it holds no
      DEL, the one control character that is written raw. */
  lemma StringReadsBack(s: string, rest: string)
    ensures ReadString(TomlString(s) + rest) == if '\U{7f}' in s then None else Some(Reading(s, rest))
  {
    hide ReadBody, Escaped;
    EscapedReadsBack(s, rest);
    var t := TomlString(s) + rest;
    assert t[1..] == Escaped(s) + ("\"" + rest);
  }

  lemma ReadsBackExactlyWithoutDel(s: string)
    ensures TomlValue(TomlString(s)) == Some(s) <==> '\U{7f}' !in s
  {
    StringReadsBack(s, "");
    assert TomlString(s) + "" == TomlString(s);
  }
}
