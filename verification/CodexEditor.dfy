/** The editor of config.toml as it runs: flags, builders, and output slices. */
module CodexEditor {
  import opened TextLines
  import opened TextFiles
  import opened TomlStrings
  import opened CodexDocument

  method StripManagedBlock(s: string) returns (res: string, found: bool)
    ensures res == Stripped(s) && found == Found(s)
  {
    if !Contains(s, BEGIN) {
      return s, false;
    }
    var lines := Split(s);
    var out: seq<Line>, inBlock := [], false;
    found := false;
    for i := 0 to |lines|
      invariant Cut(inBlock, found, out) == CutFrom(UNCUT, lines[..i])
    {
      assert lines[..i + 1][..i] == lines[..i];
      var trimmed := TrimSpace(lines[i]);
      if !inBlock && trimmed == BEGIN {
        inBlock, found := true, true;
        if |out| > 0 && TrimSpace(out[|out| - 1]) == "" {
          out := out[..|out| - 1];
        }
      } else if inBlock {
        if trimmed == END {
          inBlock := false;
        }
      } else {
        out := out + [lines[i]];
      }
    }
    assert lines[..|lines|] == lines;
    res := TrimNewlines(Join(out));
    if res != "" {
      res := res + "\n";
    }
  }

  method DeclaresProvider(s: string) returns (declared: bool)
    ensures declared == Declares(s)
  {
    var lines := Split(s);
    for i := 0 to |lines|
      invariant forall j :: 0 <= j < i ==> !DeclaresLine(lines[j])
    {
      if DeclaresLine(lines[i]) {
        return true;
      }
    }
    return false;
  }

  method WriteArgs(args: seq<string>) returns (out: string)
    ensures out == JoinArgs(args)
  {
    out := "";
    for i := 0 to |args|
      invariant out == JoinArgs(args[..i])
    {
      assert args[..i + 1][..i] == args[..i];
      var quoted := WriteTomlString(args[i]);
      out := if i == 0 then quoted else out + ", " + quoted;
    }
    assert args[..|args|] == args;
  }

  method RenderProviderBlock(spec: Spec) returns (block: string)
    requires spec.tokenCommand != []
    ensures block == Block(spec)
  {
    var baseUrl := spec.baseUrl;
    if baseUrl == "" {
      baseUrl := DEFAULT_BASE_URL;
    }
    var url := WriteTomlString(baseUrl);
    var command := WriteTomlString(spec.tokenCommand[0]);
    var args := WriteArgs(spec.tokenCommand[1..]);
    var lines := [
      Setting("[model_providers.", PROVIDER + "]"), Setting("name = ", "\"OpenRouter\""), Setting("base_url = ", url),
      Setting("wire_api = ", "\"responses\""), Setting("", ""), Setting("[model_providers.", PROVIDER + ".auth]"),
      Setting("command = ", command), Setting("args = ", "[" + args + "]"),
      Setting("timeout_ms = ", Digits(Positive(spec.timeoutMs, DEFAULT_TIMEOUT_MS))),
      Setting("refresh_interval_ms = ", Digits(Positive(spec.refreshMs, DEFAULT_REFRESH_MS)))
    ];
    assert lines == SettingsOf(spec, baseUrl);
    block := Join([BEGIN] + Lines(lines) + [END] + [""]);
  }

  /** The whole edit of config.toml, on its text. */
  method ApplyProviderBlock(existing: string, spec: Spec) returns (outcome: Outcome)
    ensures outcome == Applied(existing, spec)
  {
    if |spec.tokenCommand| == 0 {
      return NoTokenCommand;
    }
    var body, _ := StripManagedBlock(existing);
    var declared := DeclaresProvider(body);
    if declared {
      return ForeignProviderBlock;
    }
    var block := RenderProviderBlock(spec);
    var out := body;
    if out != "" && out[|out| - 1] != '\n' {
      out := out + "\n";
    }
    if out != "" {
      out := out + "\n";
    }
    out := out + block;
    outcome := Written(out);
  }

  method RemoveProviderBlock(existing: string) returns (text: string)
    ensures text == Removed(existing)
  {
    var stripped, found := StripManagedBlock(existing);
    text := if found then stripped else existing;
  }
}
