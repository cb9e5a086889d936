/** Lines of text, and the white space around them. */
module TextLines {
  type Line = string

  predicate HasPrefix(s: string, p: string) { p <= s }

  /** White space as TrimSpace sees it. */
  predicate IsSpace(c: char) {
    || c == ' ' || c == '\t' || c == '\n' || c == '\r' || c == '\U{0b}' || c == '\U{0c}'
    || c == '\U{85}' || c == '\U{a0}' || c == '\U{1680}' || '\U{2000}' <= c <= '\U{200a}'
    || c == '\U{2028}' || c == '\U{2029}' || c == '\U{202f}' || c == '\U{205f}' || c == '\U{3000}'
  }

  /** White space as a regular expression's \s sees it. */
  predicate IsRegexSpace(c: char) {
    c == ' ' || c == '\t' || c == '\n' || c == '\r' || c == '\U{0c}'
  }

  predicate IsIndentChar(c: char) { c == ' ' || c == '\t' }

  function TrimLeft(s: string): string {
    if s != "" && IsSpace(s[0]) then TrimLeft(s[1..]) else s
  }

  function TrimRight(s: string): string {
    if s != "" && IsSpace(s[|s| - 1]) then TrimRight(s[..|s| - 1]) else s
  }

  function TrimSpace(s: string): string { TrimRight(TrimLeft(s)) }

  function SkipRegexSpace(s: string): string {
    if s != "" && IsRegexSpace(s[0]) then SkipRegexSpace(s[1..]) else s
  }

  function LeadingSpace(s: string): string {
    if s != "" && IsIndentChar(s[0]) then [s[0]] + LeadingSpace(s[1..]) else ""
  }

  ghost predicate IsIndent(s: string) { forall i :: 0 <= i < |s| ==> IsIndentChar(s[i]) }

  /** Text whose first and last characters are not white space. */
  ghost predicate Tight(s: string) { s != "" && !IsSpace(s[0]) && !IsSpace(s[|s| - 1]) }

  predicate Blank(ln: Line) { TrimSpace(ln) == "" }

  lemma {:induction false} LeadingSpaceIsIndent(s: string)
    ensures IsIndent(LeadingSpace(s)) && LeadingSpace(s) <= s
  {
    if s != "" && IsIndentChar(s[0]) {
      LeadingSpaceIsIndent(s[1..]);
    }
  }

  lemma {:induction false} IndentIsLeading(indent: string, text: string)
    requires IsIndent(indent) && text != "" && !IsIndentChar(text[0])
    ensures LeadingSpace(indent + text) == indent
  {
    if indent == "" {
      assert indent + text == text;
    } else {
      IndentIsLeading(indent[1..], text);
      assert (indent + text)[1..] == indent[1..] + text;
    }
  }

  lemma {:induction false} TrimLeftSkipsIndent(indent: string, text: string)
    requires IsIndent(indent) && text != "" && !IsSpace(text[0])
    ensures TrimLeft(indent + text) == text
  {
    if indent == "" {
      assert indent + text == text;
    } else {
      assert IsIndentChar(indent[0]);
      TrimLeftSkipsIndent(indent[1..], text);
      assert (indent + text)[1..] == indent[1..] + text;
    }
  }

  lemma {:induction false} TrimRightKeepsHead(s: string)
    requires s != "" && !IsSpace(s[0])
    ensures TrimRight(s) != "" && TrimRight(s)[0] == s[0]
  {
    if IsSpace(s[|s| - 1]) {
      TrimRightKeepsHead(s[..|s| - 1]);
    }
  }

  /** Trimming an indented text gives the text back, or at least its first character. */
  lemma TrimIndented(indent: string, text: string)
    requires IsIndent(indent) && text != "" && !IsSpace(text[0])
    ensures TrimSpace(indent + text) != "" && TrimSpace(indent + text)[0] == text[0]
    ensures Tight(text) ==> TrimSpace(indent + text) == text
  {
    TrimLeftSkipsIndent(indent, text);
    TrimRightKeepsHead(text);
  }

  lemma {:induction false} TrimLeftIsTight(s: string)
    ensures TrimLeft(s) == "" || !IsSpace(TrimLeft(s)[0])
  {
    if s != "" && IsSpace(s[0]) {
      TrimLeftIsTight(s[1..]);
    }
  }

  lemma {:induction false} TrimRightIsTight(s: string)
    ensures TrimRight(s) == "" || !IsSpace(TrimRight(s)[|TrimRight(s)| - 1])
  {
    if s != "" && IsSpace(s[|s| - 1]) {
      TrimRightIsTight(s[..|s| - 1]);
    }
  }

  /** Trimmed text is empty or tight. */
  lemma TrimIsTight(s: string)
    ensures TrimSpace(s) == "" || Tight(TrimSpace(s))
  {
    TrimLeftIsTight(s);
    TrimRightIsTight(TrimLeft(s));
    if TrimLeft(s) != "" {
      TrimRightKeepsHead(TrimLeft(s));
    }
  }

  lemma {:induction false} SkippedSpaceIsSpace(s: string)
    ensures TrimLeft(SkipRegexSpace(s)) == TrimLeft(s)
  {
    if s != "" && IsRegexSpace(s[0]) {
      SkippedSpaceIsSpace(s[1..]);
    }
  }
}
