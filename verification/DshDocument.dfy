/** The harness's credential file as lines, and the block the switcher owns in it. */
module DshDocument {
  import opened TextLines

  // The marks are written in pieces, so that a proof about one of their characters, or
  // about none being a newline, looks at a short piece and not at the whole text.
  const REF := "DEEPSEEK_API_KEY"
  const TITLE := " foxy-switcher " + "deepseek — managed, " + "do not edit "
  const BEGIN := "# >>>" + TITLE + ">>>"
  const END := "# <<<" + TITLE + "<<<"
  const SAVED := "# foxy" + "-switcher:saved" + " "
  const NEW_INDENT := "  "

  type Doc = seq<Line>

  /** The top-level `refs:` key, alone or followed by a comment. */
  predicate IsRefsKey(ln: Line) {
    HasPrefix(ln, "refs:") &&
    var rest := SkipRegexSpace(ln[5..]);
    rest == "" || rest[0] == '#'
  }

  /** An indented DEEPSEEK_API_KEY entry. */
  predicate IsRefLine(ln: Line) {
    var text := SkipRegexSpace(ln);
    |text| < |ln| && HasPrefix(text, REF) && HasPrefix(SkipRegexSpace(text[|REF|..]), ":")
  }

  predicate IsSentinel(ln: Line) { TrimSpace(ln) == BEGIN || TrimSpace(ln) == END }

  // ------------------------------------------------------------------- the section

  /** Inside a section: blank, or indented. */
  predicate Inside(ln: Line) { Blank(ln) || LeadingSpace(ln) != "" }

  function Head(lines: Doc): (h: nat)
    ensures h <= |lines|
  {
    if lines == [] || IsRefsKey(lines[0]) then 0 else 1 + Head(lines[1..])
  }

  function InsideCount(tail: Doc): (n: nat)
    ensures n <= |tail|
  {
    if tail == [] || !Inside(tail[0]) then 0 else 1 + InsideCount(tail[1..])
  }

  /** The first `n` lines without the blank ones at their end. */
  function CoreLen(tail: Doc, n: nat): (m: nat)
    requires n <= |tail|
    ensures m <= n
  {
    if n > 0 && Blank(tail[n - 1]) then CoreLen(tail, n - 1) else n
  }

  /** How many of the lines after the header are the section's body: trailing blank
      lines are left outside it. */
  function BodyLen(tail: Doc): (m: nat)
    ensures m <= |tail|
  {
    CoreLen(tail, InsideCount(tail))
  }

  function FirstLead(body: Doc): string {
    if body == [] then "" else if Blank(body[0]) then FirstLead(body[1..]) else LeadingSpace(body[0])
  }

  function IndentOf(body: Doc): string {
    if FirstLead(body) == "" then NEW_INDENT else FirstLead(body)
  }

  /** The refs section: its entries' indent and the [start, end) of its body. */
  datatype Section = NoSection | Section(indent: string, start: nat, end: nat)

  function RefsOf(lines: Doc): (sec: Section)
    ensures sec.Section? ==> 0 < sec.start <= sec.end <= |lines|
  {
    var head := Head(lines);
    if head == |lines| then NoSection
    else
      var tail := lines[head + 1..];
      Section(IndentOf(tail[..BodyLen(tail)]), head + 1, head + 1 + BodyLen(tail))
  }

  // ---------------------------------------------------------------------- applying

  predicate PlainScalar(v: string) {
    v != "" && forall i :: 0 <= i < |v| ==> PlainChar(v[i])
  }

  predicate PlainChar(c: char) {
    'A' <= c <= 'Z' || 'a' <= c <= 'z' || '0' <= c <= '9' ||
    c == '_' || c == '-' || c == '.' || c == '/' || c == '+' || c == '='
  }

  function DoubleQuotes(v: string): string {
    if v == "" then "" else (if v[0] == '\'' then "''" else [v[0]]) + DoubleQuotes(v[1..])
  }

  function QuoteYaml(v: string): string {
    if PlainScalar(v) then v else "'" + DoubleQuotes(v) + "'"
  }

  function SavedLines(indent: string, saved: string): Doc {
    if saved == "" then [] else [indent + (SAVED + saved)]
  }

  function ManagedBlock(indent: string, apiKey: string, saved: string): Doc {
    [indent + BEGIN] + SavedLines(indent, saved) + [indent + (REF + ": " + QuoteYaml(apiKey))] + [indent + END]
  }

  /** What the scan of the section's body has gathered; `at` is -1 until a place is found. */
  datatype Scan = Scan(inManaged: bool, saved: string, at: int, body: Doc)

  const UNSCANNED := Scan(false, "", -1, [])

  function Placed(s: Scan): int { if s.at < 0 then |s.body| else s.at }

  function ScanLine(s: Scan, ln: Line): Scan {
    var trimmed := TrimSpace(ln);
    if trimmed == BEGIN then s.(inManaged := true, at := Placed(s))
    else if trimmed == END then s.(inManaged := false)
    else if s.inManaged then
      if HasPrefix(trimmed, SAVED) then s.(saved := trimmed[|SAVED|..]) else s
    else if IsRefLine(ln) then s.(saved := trimmed, at := Placed(s))
    else s.(body := s.body + [ln])
  }

  function ScanFrom(s: Scan, lines: Doc): Scan {
    if lines == [] then s else ScanLine(ScanFrom(s, lines[..|lines| - 1]), lines[|lines| - 1])
  }

  /** Where the block goes among the kept lines. */
  lemma {:induction false} PlaceIsWithin(lines: Doc)
    ensures -1 <= ScanFrom(UNSCANNED, lines).at <= |ScanFrom(UNSCANNED, lines).body|
  {
    if lines != [] {
      PlaceIsWithin(lines[..|lines| - 1]);
    }
  }

  function Place(body: Doc): (at: nat)
    ensures at <= |Kept(body)|
  {
    PlaceIsWithin(body);
    Placed(ScanFrom(UNSCANNED, body))
  }

  function Kept(body: Doc): Doc { ScanFrom(UNSCANNED, body).body }
  function Parked(body: Doc): string { ScanFrom(UNSCANNED, body).saved }

  /** The section's body with the block in it. */
  function Edited(body: Doc, indent: string, apiKey: string): Doc {
    Kept(body)[..Place(body)] + ManagedBlock(indent, apiKey, Parked(body)) + Kept(body)[Place(body)..]
  }

  /** What precedes a section appended to a document without one. */
  function Separator(lines: Doc): Doc {
    if lines == [] then ["version: 1", ""] else if !Blank(lines[|lines| - 1]) then [""] else []
  }

  function Applied(lines: Doc, apiKey: string): Doc {
    match RefsOf(lines)
    case NoSection => lines + Separator(lines) + ["refs:"] + ManagedBlock(NEW_INDENT, apiKey, "")
    case Section(indent, start, end) => lines[..start] + Edited(lines[start..end], indent, apiKey) + lines[end..]
  }

  // ---------------------------------------------------------------------- removing

  datatype Strip = Strip(inManaged: bool, changed: bool, indent: string, out: Doc)

  const UNSTRIPPED := Strip(false, false, NEW_INDENT, [])

  function StripLine(s: Strip, ln: Line): Strip {
    var trimmed := TrimSpace(ln);
    if trimmed == BEGIN then s.(inManaged := true, changed := true, indent := LeadingSpace(ln))
    else if trimmed == END then s.(inManaged := false)
    else if s.inManaged then
      if HasPrefix(trimmed, SAVED) then s.(out := s.out + [s.indent + trimmed[|SAVED|..]]) else s
    else s.(out := s.out + [ln])
  }

  function StripFrom(s: Strip, lines: Doc): Strip {
    if lines == [] then s else StripLine(StripFrom(s, lines[..|lines| - 1]), lines[|lines| - 1])
  }

  function Removed(lines: Doc): Doc { StripFrom(UNSTRIPPED, lines).out }

  /** A refs header with nothing under it goes too. */
  function WithoutEmptyRefs(lines: Doc): (out: Doc)
    ensures out == lines || |out| < |lines|
  {
    match RefsOf(lines)
    case NoSection => lines
    case Section(_, start, end) => if end > start then lines else lines[..start - 1] + lines[start..]
  }
}
