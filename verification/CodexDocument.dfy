/** The user's config.toml as text, and the provider block the switcher owns in it. */
module CodexDocument {
  import opened TextLines
  import opened TextFiles
  import opened TomlStrings

  // The sentinels are written in pieces, so that a proof about one of their characters, or
  // about none being a newline, looks at a short piece and not at the whole text.
  const PROVIDER := "openrouter"
  const TITLE := " foxy-switcher " + "openrouter — managed " + "block, do not edit "
  const BEGIN := "# >>>" + TITLE + ">>>"
  const END := "# <<<" + TITLE + "<<<"
  const DEFAULT_BASE_URL := "https://openrouter.ai/api/v1"
  const DEFAULT_TIMEOUT_MS := 5000
  const DEFAULT_REFRESH_MS := 300000

  datatype Spec = Spec(tokenCommand: seq<string>, baseUrl: string, timeoutMs: int, refreshMs: int)

  // ------------------------------------------------------------------ cutting our block

  datatype Cut = Cut(inBlock: bool, found: bool, out: seq<Line>)

  const UNCUT := Cut(false, false, [])

  /** One blank line before the block goes with it. */
  function WithoutSeparator(out: seq<Line>): seq<Line> {
    if out != [] && Blank(out[|out| - 1]) then out[..|out| - 1] else out
  }

  function CutLine(s: Cut, ln: Line): Cut {
    if !s.inBlock && TrimSpace(ln) == BEGIN then Cut(true, true, WithoutSeparator(s.out))
    else if s.inBlock then s.(inBlock := TrimSpace(ln) != END)
    else s.(out := s.out + [ln])
  }

  function CutFrom(s: Cut, lines: seq<Line>): Cut {
    if lines == [] then s else CutLine(CutFrom(s, lines[..|lines| - 1]), lines[|lines| - 1])
  }

  /** A text with its trailing newlines reduced to one. */
  function Normalised(s: string): string {
    if TrimNewlines(s) == "" then "" else TrimNewlines(s) + "\n"
  }

  /** The text without our block; one that never mentions it is left alone. */
  function Stripped(s: string): string {
    if !Contains(s, BEGIN) then s else Normalised(Join(CutFrom(UNCUT, Split(s)).out))
  }

  function Found(s: string): bool { Contains(s, BEGIN) && CutFrom(UNCUT, Split(s)).found }

  // ------------------------------------------------------------------- rendering a block

  function Digits(n: nat): string {
    if n < 10 then [('0' as int + n) as char] else Digits(n / 10) + [('0' as int + n % 10) as char]
  }

  function JoinArgs(args: seq<string>): string {
    if args == [] then ""
    else if |args| == 1 then TomlString(args[0])
    else JoinArgs(args[..|args| - 1]) + ", " + TomlString(args[|args| - 1])
  }

  function Positive(n: int, default: nat): nat { if n <= 0 then default else n }

  function BlockLines(spec: Spec): seq<Line>
    requires spec.tokenCommand != []
  {
    var baseUrl := if spec.baseUrl == "" then DEFAULT_BASE_URL else spec.baseUrl;
    [BEGIN] + Settings(spec, baseUrl) + [END]
  }

  /** A setting: its key up to the value, and the value. */
  datatype Setting = Setting(key: string, value: string)

  function SettingLine(t: Setting): Line { t.key + t.value }

  function SettingsOf(spec: Spec, baseUrl: string): seq<Setting>
    requires spec.tokenCommand != []
  {
    [Setting("[model_providers.", PROVIDER + "]"),
     Setting("name = ", "\"OpenRouter\""),
     Setting("base_url = ", TomlString(baseUrl)),
     Setting("wire_api = ", "\"responses\""),
     Setting("", ""),
     Setting("[model_providers.", PROVIDER + ".auth]"),
     Setting("command = ", TomlString(spec.tokenCommand[0])),
     Setting("args = ", "[" + JoinArgs(spec.tokenCommand[1..]) + "]"),
     Setting("timeout_ms = ", Digits(Positive(spec.timeoutMs, DEFAULT_TIMEOUT_MS))),
     Setting("refresh_interval_ms = ", Digits(Positive(spec.refreshMs, DEFAULT_REFRESH_MS)))]
  }

  function Lines(settings: seq<Setting>): (r: seq<Line>)
    ensures |r| == |settings| && forall i :: 0 <= i < |r| ==> r[i] == SettingLine(settings[i])
  {
    if settings == [] then []
    else Lines(settings[..|settings| - 1]) + [SettingLine(settings[|settings| - 1])]
  }

  function Settings(spec: Spec, baseUrl: string): seq<Line>
    requires spec.tokenCommand != []
  {
    Lines(SettingsOf(spec, baseUrl))
  }

  /** The block as text: its lines, each ended by a newline. */
  function Block(spec: Spec): string
    requires spec.tokenCommand != []
  {
    Join(BlockLines(spec) + [""])
  }

  // ----------------------------------------------------------------- a provider of theirs

  function BeforeHash(s: string): string {
    if s == "" || s[0] == '#' then "" else [s[0]] + BeforeHash(s[1..])
  }

  function WithoutComment(s: string): string { if '#' in s then TrimSpace(BeforeHash(s)) else s }

  predicate IsBracket(c: char) { c == '[' || c == ']' }

  function TrimBrackets(s: string): string {
    if s != "" && IsBracket(s[0]) then TrimBrackets(s[1..])
    else if s != "" && IsBracket(s[|s| - 1]) then TrimBrackets(s[..|s| - 1])
    else s
  }

  /** A table header declaring the provider or one of its sub-tables. */
  predicate DeclaresLine(ln: Line) {
    var t := TrimSpace(ln);
    HasPrefix(t, "[") &&
    var u := WithoutComment(t);
    |u| >= 2 && u[0] == '[' && u[|u| - 1] == ']' &&
    var header := TrimSpace(TrimBrackets(TrimSpace(u[1..|u| - 1])));
    header == "model_providers." + PROVIDER || HasPrefix(header, "model_providers." + PROVIDER + ".")
  }

  predicate DeclaresAny(lines: seq<Line>) { exists i :: 0 <= i < |lines| && DeclaresLine(lines[i]) }

  predicate Declares(s: string) { DeclaresAny(Split(s)) }

  // -------------------------------------------------------------------- applying, removing

  datatype Outcome = Written(text: string) | NoTokenCommand | ForeignProviderBlock

  /** The user's text, ended by a newline and followed by a blank line unless empty. */
  function Led(body: string): string {
    if body == "" then ""
    else if body[|body| - 1] == '\n' then body + "\n"
    else body + "\n" + "\n"
  }

  function Applied(existing: string, spec: Spec): Outcome {
    if spec.tokenCommand == [] then NoTokenCommand
    else if Declares(Stripped(existing)) then ForeignProviderBlock
    else Written(Led(Stripped(existing)) + Block(spec))
  }

  function Removed(existing: string): string { if Found(existing) then Stripped(existing) else existing }
}
