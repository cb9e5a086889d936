/** What applying and removing the provider block mean for the user's text. */
module CodexLaws {
  import opened Options
  import opened TextLines
  import opened TextFiles
  import opened TomlStrings
  import opened CodexDocument

  ghost predicate NoBegin(lines: seq<Line>) {
    forall i :: 0 <= i < |lines| ==> TrimSpace(lines[i]) != BEGIN
  }

  lemma TitleIsOneLine()
    ensures OneLine(TITLE)
  {
    assert OneLine(" foxy-switcher ");
    assert OneLine("openrouter — managed ");
    assert OneLine("block, do not edit ");
  }

  lemma MarksAreOneLine()
    ensures OneLine(BEGIN) && OneLine(END)
  {
    TitleIsOneLine();
    assert OneLine("# >>>") && OneLine(">>>") && OneLine("# <<<") && OneLine("<<<");
  }

  lemma MarksAreTight()
    ensures Tight(BEGIN) && BEGIN[0] == '#' && BEGIN[2] == '>'
    ensures Tight(END) && END[0] == '#' && END[2] == '<'
  {
  }

  lemma TightIsTrimmed(s: string)
    requires Tight(s)
    ensures TrimSpace(s) == s
  {
    TrimIndented("", s);
    assert "" + s == s;
  }

  lemma MarksAreMarks()
    ensures TrimSpace(BEGIN) == BEGIN && TrimSpace(END) == END && BEGIN != END
  {
    MarksAreTight();
    TightIsTrimmed(BEGIN);
    TightIsTrimmed(END);
  }

  // ------------------------------------------------------------------ the block's lines

  lemma {:induction false} DigitsAreOneLine(n: nat)
    ensures OneLine(Digits(n)) && Digits(n) != ""
  {
    if n >= 10 {
      DigitsAreOneLine(n / 10);
    }
  }

  lemma {:induction false} ArgsAreOneLine(args: seq<string>)
    ensures OneLine(JoinArgs(args))
  {
    if args != [] {
      TomlStringIsOneLine(args[|args| - 1]);
      ArgsAreOneLine(args[..|args| - 1]);
    }
  }

  /** On one line, and not to be taken for a sentinel. */
  ghost predicate Harmless(ln: Line) {
    OneLine(ln) && (ln == "" || (!IsSpace(ln[0]) && ln[0] != '#'))
  }

  lemma KeyMakesHarmless(key: string, value: string)
    requires Harmless(key) && key != "" && OneLine(value)
    ensures Harmless(key + value)
  {
    assert (key + value)[0] == key[0];
  }

  ghost predicate Sound(t: Setting) {
    (t.key == "" && t.value == "") || (t.key != "" && Harmless(t.key) && OneLine(t.value))
  }

  lemma HeadersAreSound()
    ensures Harmless("[model_providers.") && OneLine(PROVIDER + "]") && OneLine(PROVIDER + ".auth]")
  {
  }

  lemma KeysAreSound()
    ensures Harmless("name = ") && Harmless("base_url = ") && Harmless("wire_api = ") && Harmless("command = ")
    ensures OneLine("\"OpenRouter\"") && OneLine("\"responses\"")
  {
  }

  lemma MoreKeysAreSound()
    ensures Harmless("args = ") && Harmless("timeout_ms = ") && Harmless("refresh_interval_ms = ")
  {
  }

  lemma ValuesAreSound(spec: Spec, baseUrl: string)
    requires spec.tokenCommand != []
    ensures forall i :: 0 <= i < |SettingsOf(spec, baseUrl)| ==> Sound(SettingsOf(spec, baseUrl)[i])
  {
    HeadersAreSound();
    KeysAreSound();
    MoreKeysAreSound();
    TomlStringIsOneLine(baseUrl);
    TomlStringIsOneLine(spec.tokenCommand[0]);
    ArgsAreOneLine(spec.tokenCommand[1..]);
    DigitsAreOneLine(Positive(spec.timeoutMs, DEFAULT_TIMEOUT_MS));
    DigitsAreOneLine(Positive(spec.refreshMs, DEFAULT_REFRESH_MS));
  }

  /** Every setting stays on its line, and none can be taken for a sentinel. */
  lemma SettingsAreHarmless(spec: Spec, baseUrl: string)
    requires spec.tokenCommand != []
    ensures var lines := Settings(spec, baseUrl);
            AllOneLine(lines) && forall i :: 0 <= i < |lines| ==> Harmless(lines[i])
  {
    var settings := SettingsOf(spec, baseUrl);
    ValuesAreSound(spec, baseUrl);
    forall i | 0 <= i < |settings|
      ensures Harmless(Lines(settings)[i])
    {
      var t := settings[i];
      assert Sound(t);
      if t.key != "" {
        KeyMakesHarmless(t.key, t.value);
      }
    }
  }

  lemma HarmlessIsNoMark(ln: Line)
    requires Harmless(ln)
    ensures TrimSpace(ln) != BEGIN && TrimSpace(ln) != END
  {
    MarksAreTight();
    if ln != "" {
      TrimIndented("", ln);
      assert "" + ln == ln;
    }
  }

  /** The block delimits itself: split into lines, it is its own lines. */
  lemma BlockSplits(spec: Spec)
    requires spec.tokenCommand != []
    ensures Split(Block(spec)) == BlockLines(spec) + [""] && AllOneLine(BlockLines(spec))
  {
    var baseUrl := if spec.baseUrl == "" then DEFAULT_BASE_URL else spec.baseUrl;
    MarksAreOneLine();
    SettingsAreHarmless(spec, baseUrl);
    assert AllOneLine(BlockLines(spec) + [""]);
    SplitOfJoin(BlockLines(spec) + [""]);
  }

  // -------------------------------------------------------------------------- the scan

  lemma {:induction false} CutAppends(s: Cut, a: seq<Line>, b: seq<Line>)
    ensures CutFrom(s, a + b) == CutFrom(CutFrom(s, a), b)
  {
    if b == [] {
      assert a + b == a;
    } else {
      CutAppends(s, a, b[..|b| - 1]);
      assert (a + b)[..|a + b| - 1] == a + b[..|b| - 1];
    }
  }

  lemma CutOne(s: Cut, ln: Line)
    ensures CutFrom(s, [ln]) == CutLine(s, ln)
  {
    assert [ln][..0] == [];
  }

  lemma {:induction false} CutUnmarked(s: Cut, lines: seq<Line>)
    requires !s.inBlock && NoBegin(lines)
    ensures CutFrom(s, lines) == s.(out := s.out + lines)
  {
    if lines == [] {
      assert s.out + lines == s.out;
    } else {
      var n := |lines| - 1;
      CutUnmarked(s, lines[..n]);
      assert TrimSpace(lines[n]) != BEGIN;
      assert s.out + lines == s.out + lines[..n] + [lines[n]];
    }
  }

  lemma {:induction false} CutInside(s: Cut, lines: seq<Line>)
    requires s.inBlock && forall i :: 0 <= i < |lines| ==> TrimSpace(lines[i]) != END
    ensures CutFrom(s, lines) == s
  {
    if lines != [] {
      CutInside(s, lines[..|lines| - 1]);
    }
  }

  /** The whole block is cut, with the blank line before it. */
  lemma CutBlock(s: Cut, spec: Spec)
    requires !s.inBlock && spec.tokenCommand != []
    ensures CutFrom(s, BlockLines(spec)) == Cut(false, true, WithoutSeparator(s.out))
  {
    var baseUrl := if spec.baseUrl == "" then DEFAULT_BASE_URL else spec.baseUrl;
    var settings := Settings(spec, baseUrl);
    var inside := Cut(true, true, WithoutSeparator(s.out));
    MarksAreMarks();
    SettingsAreHarmless(spec, baseUrl);
    forall i | 0 <= i < |settings|
      ensures TrimSpace(settings[i]) != END
    {
      HarmlessIsNoMark(settings[i]);
    }
    CutOne(s, BEGIN);
    CutInside(inside, settings);
    CutOne(inside, END);
    CutAppends(s, [BEGIN], settings);
    CutAppends(s, [BEGIN] + settings, [END]);
  }

  lemma {:induction false} CutKeepsNoBegin(lines: seq<Line>)
    ensures var out := CutFrom(UNCUT, lines).out;
            NoBegin(out) && (forall ln :: ln in out ==> ln in lines)
  {
    if lines != [] {
      var n := |lines| - 1;
      CutKeepsNoBegin(lines[..n]);
      assert lines == lines[..n] + [lines[n]];
    }
  }

  lemma UnmentionedHasNoBegin(s: string)
    requires !Contains(s, BEGIN)
    ensures NoBegin(Split(s))
  {
    forall i | 0 <= i < |Split(s)|
      ensures TrimSpace(Split(s)[i]) != BEGIN
    {
      LineIsContained(s, i);
      TrimmedIsContained(Split(s)[i]);
      if TrimSpace(Split(s)[i]) == BEGIN {
        ContainsThrough(s, Split(s)[i], BEGIN);
      }
    }
  }

  lemma NormalisedSplit(s: string)
    requires NoBegin(Split(s))
    ensures NoBegin(Split(Normalised(s)))
  {
    TrimNewlinesSplit(s);
    MarksAreTight();
    if TrimNewlines(s) != "" {
      SplitPushed(TrimNewlines(s), '\n');
    }
    assert TrimSpace("") != BEGIN;
    forall i | 0 <= i < |Split(TrimNewlines(s))|
      ensures Split(TrimNewlines(s))[i] == Split(s)[i]
    {
    }
  }

  /** What stripping leaves has no block left in it. */
  lemma StrippedHasNoBegin(s: string)
    ensures NoBegin(Split(Stripped(s)))
  {
    if !Contains(s, BEGIN) {
      UnmentionedHasNoBegin(s);
    } else {
      var out := CutFrom(UNCUT, Split(s)).out;
      CutKeepsNoBegin(Split(s));
      SplitsAreOneLine(s);
      if out == [] {
        MarksAreTight();
        assert TrimSpace("") != BEGIN;
        assert Split("") == [""];
      } else {
        assert AllOneLine(out) by {
          forall i | 0 <= i < |out|
            ensures OneLine(out[i])
          {
            assert out[i] in Split(s);
          }
        }
        SplitOfJoin(out);
      }
      NormalisedSplit(Join(out));
    }
  }

  // ------------------------------------------------------------------------ main laws

  /** The user's text, ended by a newline. */
  function Ended(body: string): string {
    if body != "" && body[|body| - 1] == '\n' then body else body + "\n"
  }

  lemma EndedSplits(body: string)
    ensures exists lines :: lines != [] && Split(Ended(body)) == lines + [""]
  {
    if body != "" && body[|body| - 1] == '\n' {
      LastOff(body);
      SplitPushed(body[..|body| - 1], '\n');
    } else {
      SplitPushed(body, '\n');
    }
  }

  lemma EndedNormalises(body: string)
    ensures Normalised(Ended(body)) == Normalised(body)
  {
    TrimNewlinesEnds(body);
  }

  lemma EndedHasNoBegin(body: string)
    requires NoBegin(Split(body))
    ensures NoBegin(Split(Ended(body)))
  {
    if body == "" || body[|body| - 1] != '\n' {
      SplitPushed(body, '\n');
      assert TrimSpace("") != BEGIN;
    }
  }

  lemma BlockMentionsBegin(lead: string, spec: Spec)
    requires spec.tokenCommand != []
    ensures Contains(lead + Block(spec), BEGIN)
  {
    BlockSplits(spec);
    LineIsContained(Block(spec), 0);
    PartIsContained(lead, Block(spec), "");
    assert lead + Block(spec) + "" == lead + Block(spec);
    ContainsThrough(lead + Block(spec), Block(spec), BEGIN);
  }

  lemma CutAfterLines(lines: seq<Line>, spec: Spec)
    requires NoBegin(lines) && spec.tokenCommand != []
    ensures CutFrom(UNCUT, lines + (BlockLines(spec) + [""])) == Cut(false, true, WithoutSeparator(lines) + [""])
  {
    CutUnmarked(UNCUT, lines);
    assert UNCUT.out + lines == lines;
    CutBlock(Cut(false, false, lines), spec);
    assert TrimSpace("") != BEGIN;
    CutOne(Cut(false, true, WithoutSeparator(lines)), "");
    CutAppends(UNCUT, lines, BlockLines(spec) + [""]);
    CutAppends(Cut(false, false, lines), BlockLines(spec), [""]);
  }

  lemma StripOfLed(body: string, spec: Spec)
    requires NoBegin(Split(body)) && spec.tokenCommand != []
    ensures Stripped(Led(body) + Block(spec)) == Normalised(body) && Found(Led(body) + Block(spec))
  {
    var text := Led(body) + Block(spec);
    BlockMentionsBegin(Led(body), spec);
    BlockSplits(spec);
    if body == "" {
      assert text == Block(spec);
      CutAfterLines([], spec);
      assert [] + (BlockLines(spec) + [""]) == BlockLines(spec) + [""];
    } else {
      var e := Ended(body);
      assert text == Joined(e, Block(spec));
      SplitJoined(e, Block(spec));
      EndedHasNoBegin(body);
      CutAfterLines(Split(e), spec);
      EndedSplits(body);
      JoinOfSplit(e);
      EndedNormalises(body);
    }
  }

  /** Stripping after applying gives the user's text with its trailing newlines
      reduced to one, whatever was written in the block. */
  lemma StrippedAfterApplied(existing: string, spec: Spec)
    requires Applied(existing, spec).Written?
    ensures var text := Applied(existing, spec).text;
            Stripped(text) == Normalised(Stripped(existing)) && Found(text)
  {
    StrippedHasNoBegin(existing);
    StripOfLed(Stripped(existing), spec);
  }

  lemma EmptyLinesDeclareNothing(lines: seq<Line>, more: seq<Line>)
    requires lines <= more && forall i :: |lines| <= i < |more| ==> more[i] == ""
    ensures DeclaresAny(more) == DeclaresAny(lines)
  {
    assert !DeclaresLine("");
    if i :| 0 <= i < |more| && DeclaresLine(more[i]) {
      assert lines[i] == more[i];
    }
    if i :| 0 <= i < |lines| && DeclaresLine(lines[i]) {
      assert more[i] == lines[i];
    }
  }

  /** Blank lines declare nothing. */
  lemma NormalisedDeclaresTheSame(body: string)
    ensures Declares(Normalised(body)) == Declares(body)
  {
    var x := TrimNewlines(body);
    TrimNewlinesSplit(body);
    SplitPushed(x, '\n');
    EmptyLinesDeclareNothing(Split(x), Split(body));
    EmptyLinesDeclareNothing(Split(x), Split(x + "\n"));
  }

  /** Not a lone newline, and not ending in a blank line; a text that already holds
      the block always counts. */
  predicate Tidy(existing: string) {
    Contains(existing, BEGIN) ||
    (existing != "\n" && (|existing| < 2 || existing[|existing| - 1] != '\n' || existing[|existing| - 2] != '\n'))
  }

  lemma LedAgain(body: string)
    ensures Led(Normalised(body)) == Led(body) <==>
            body != "\n" && (|body| < 2 || body[|body| - 1] != '\n' || body[|body| - 2] != '\n')
  {
    TrimNewlinesEnds(body);
    if body != "" && body[|body| - 1] == '\n' {
      var y := body[..|body| - 1];
      LastOff(body);
      TrimNewlinesShrinks(y);
    }
  }

  lemma {:induction false} TrimNewlinesShrinks(y: string)
    ensures |TrimNewlines(y)| <= |y| && (TrimNewlines(y) == y <==> y == "" || y[|y| - 1] != '\n')
  {
    if y != "" && y[|y| - 1] == '\n' {
      TrimNewlinesShrinks(y[..|y| - 1]);
    }
  }

  lemma NormalisedIsTidy(s: string)
    ensures Normalised(Normalised(s)) == Normalised(s)
  {
    TrimNewlinesEnds(s);
    TrimNewlinesEnds(TrimNewlines(s));
  }

  /** Applying over an applied text gives what applying alone gives exactly when the
      text was tidy; a refusal stays a refusal. */
  lemma ReapplyExactlyWhenTidy(existing: string, first: Spec, second: Spec)
    requires Applied(existing, first).Written? && second.tokenCommand != []
    ensures Applied(Applied(existing, first).text, second).Written?
    ensures Applied(Applied(existing, first).text, second) == Applied(existing, second) <==> Tidy(existing)
  {
    var body := Stripped(existing);
    StrippedAfterApplied(existing, first);
    NormalisedDeclaresTheSame(body);
    LedAgain(body);
    LedCancels(Led(Normalised(body)), Led(body), Block(second));
    if Contains(existing, BEGIN) {
      NormalisedIsTidy(Join(CutFrom(UNCUT, Split(existing)).out));
    }
  }

  lemma LedCancels(a: string, b: string, c: string)
    ensures a + c == b + c <==> a == b
  {
    if a + c == b + c {
      assert |a| == |b|;
      assert a == (a + c)[..|a|] == (b + c)[..|b|] == b;
    }
  }

  /** From the second application on, nothing changes but the block's contents. */
  lemma SecondApplicationSettles(existing: string, first: Spec, second: Spec, third: Spec)
    requires Applied(existing, first).Written? && second.tokenCommand != [] && third.tokenCommand != []
    ensures var once := Applied(existing, first).text;
            Applied(once, second).Written? && Applied(Applied(once, second).text, third) == Applied(once, third)
  {
    var once := Applied(existing, first).text;
    StrippedAfterApplied(existing, first);
    ReapplyExactlyWhenTidy(existing, first, second);
    ReapplyExactlyWhenTidy(once, second, third);
  }

  lemma NewlineMentionsNothing()
    ensures !Contains("\n", BEGIN)
  {
    assert |BEGIN| >= |"# >>>"|;
  }

  /** A text of one blank line is not left byte-identical by the second application. */
  lemma LoneNewlineChurns(spec: Spec)
    requires spec.tokenCommand != []
    ensures Applied("\n", spec).Written? && Applied(Applied("\n", spec).text, spec) != Applied("\n", spec)
  {
    NewlineMentionsNothing();
    NormalisedDeclaresTheSame("\n");
    assert Normalised("\n") == "" && !Declares("") by {
      assert "\n"[..0] == "" && Split("") == [""];
    }
    ReapplyExactlyWhenTidy("\n", spec, spec);
  }

  /** The user's own text stays in front, byte for byte. */
  lemma UserTextIsPrefix(existing: string, spec: Spec)
    requires !Contains(existing, BEGIN) && Applied(existing, spec).Written?
    ensures existing <= Applied(existing, spec).text
  {
  }

  lemma NormalisedUnchangedExactlyWhen(s: string)
    ensures Normalised(s) == s <==> s == "" || (s[|s| - 1] == '\n' && s != "\n" && (|s| < 2 || s[|s| - 2] != '\n'))
  {
    TrimNewlinesShrinks(s);
    TrimNewlinesEnds(s);
    if s != "" && s[|s| - 1] == '\n' {
      LastOff(s);
      TrimNewlinesShrinks(s[..|s| - 1]);
    }
  }

  /** Removing after applying gives a text of the user's back exactly when it was
      empty, or tidy and ended by a newline. */
  lemma RestoredExactlyWhenEnded(existing: string, spec: Spec)
    requires !Contains(existing, BEGIN) && Applied(existing, spec).Written?
    ensures Removed(Applied(existing, spec).text) == existing <==>
            existing == "" || (Tidy(existing) && existing[|existing| - 1] == '\n')
  {
    hide Contains, Applied, Normalised, Found;
    StrippedAfterApplied(existing, spec);
    NormalisedUnchangedExactlyWhen(existing);
  }

  // ------------------------------------------------------------- what the block tells codex

  /** A list of quoted strings, separated by a comma and a blank. */
  function ReadArgs(t: string): Option<seq<string>>
    decreases |t|
  {
    if t == "" then Some([])
    else
      var r := ReadString(t);
      if r.None? then None
      else if r.value.rest == "" then Some([r.value.value])
      else if !HasPrefix(r.value.rest, ", ") then None
      else
        var more := ReadArgs(r.value.rest[2..]);
        if more.Some? then Some([r.value.value] + more.value) else None
  }

  function Digit(c: char): int { c as int - '0' as int }

  function NumberOf(t: string): int {
    if t == "" then 0 else NumberOf(t[..|t| - 1]) * 10 + Digit(t[|t| - 1])
  }

  predicate Readable(s: string) { '\U{7f}' !in s }

  lemma {:induction false} ArgsPeel(args: seq<string>)
    requires |args| > 1
    ensures JoinArgs(args) == TomlString(args[0]) + ", " + JoinArgs(args[1..])
  {
    var n := |args| - 1;
    var init := args[..n];
    if n == 1 {
      assert args[1..] == [args[1]] && init == [args[0]];
    } else {
      ArgsPeel(init);
      assert args[1..][..n - 1] == init[1..];
      AppendedArg(TomlString(args[0]), JoinArgs(init[1..]), TomlString(args[n]));
    }
  }

  lemma AppendedArg(a: string, b: string, c: string)
    ensures a + ", " + b + ", " + c == a + ", " + (b + ", " + c)
  {
  }

  lemma ReadArgsPeels(v: string, more: string)
    requires Readable(v)
    ensures ReadArgs(TomlString(v) + (", " + more)) ==
            if ReadArgs(more).Some? then Some([v] + ReadArgs(more).value) else None
  {
    hide TomlString, ReadString;
    StringReadsBack(v, ", " + more);
    QuotedIsSome(v);
    assert (", " + more)[2..] == more;
  }

  lemma QuotedIsSome(v: string)
    ensures TomlString(v) != ""
  {
  }

  lemma OneArgReadsBack(v: string)
    requires Readable(v)
    ensures ReadArgs(TomlString(v)) == Some([v])
  {
    hide TomlString, ReadString;
    StringReadsBack(v, "");
    QuotedIsSome(v);
    assert TomlString(v) + "" == TomlString(v);
  }

  lemma FirstArgReadsBack(v: string, rest: seq<string>, joined: string)
    requires Readable(v) && joined == TomlString(v) + ", " + JoinArgs(rest) && ReadArgs(JoinArgs(rest)) == Some(rest)
    ensures ReadArgs(joined) == Some([v] + rest)
  {
    hide ReadArgs, JoinArgs, TomlString;
    ReadArgsPeels(v, JoinArgs(rest));
    Comma(TomlString(v), JoinArgs(rest));
  }

  lemma HeadOff<T>(s: seq<T>)
    requires s != []
    ensures s == [s[0]] + s[1..]
  {
  }

  lemma {:induction false} ArgsReadBack(args: seq<string>)
    requires forall a :: a in args ==> Readable(a)
    ensures ReadArgs(JoinArgs(args)) == Some(args)
  {
    if |args| == 0 {
    } else if |args| == 1 {
      hide ReadArgs, TomlString, Readable;
      OneArgReadsBack(args[0]);
      assert args == [args[0]];
    } else {
      hide ReadArgs, JoinArgs, TomlString, Readable;
      ArgsReadBack(args[1..]);
      ArgsPeel(args);
      FirstArgReadsBack(args[0], args[1..], JoinArgs(args));
      HeadOff(args);
    }
  }

  lemma Comma(a: string, b: string)
    ensures a + ", " + b == a + (", " + b)
  {
  }

  lemma {:induction false} DigitsReadBack(n: nat)
    ensures NumberOf(Digits(n)) == n
  {
    if n < 10 {
      assert Digits(n)[..0] == "";
    } else {
      DigitsReadBack(n / 10);
      assert Digits(n)[..|Digits(n)| - 1] == Digits(n / 10);
    }
  }

  /** What a line says after its key. */
  function After(key: string, ln: Line): string { if HasPrefix(ln, key) then ln[|key|..] else "" }

  lemma AfterKey(t: Setting)
    ensures After(t.key, SettingLine(t)) == t.value
  {
  }

  function BaseUrlOf(spec: Spec): string { if spec.baseUrl == "" then DEFAULT_BASE_URL else spec.baseUrl }

  /** The block's line of a setting, and what it says after the key. */
  lemma BlockLine(spec: Spec, i: nat)
    requires spec.tokenCommand != [] && i < 10
    ensures var settings, lines := SettingsOf(spec, BaseUrlOf(spec)), BlockLines(spec);
            |settings| == 10 && |lines| == 12 && lines[0] == BEGIN && lines[11] == END &&
            lines[i + 1] == SettingLine(settings[i]) && After(settings[i].key, lines[i + 1]) == settings[i].value
  {
    AfterKey(SettingsOf(spec, BaseUrlOf(spec))[i]);
  }

  /** The block's lines declare the provider, between its sentinels. */
  lemma BlockDeclares(spec: Spec)
    requires spec.tokenCommand != []
    ensures var lines := BlockLines(spec);
            |lines| == 12 && lines[0] == BEGIN && lines[11] == END && DeclaresHead(lines[1]) && DeclaresHead(lines[6])
  {
    hide BlockLines, SettingLine, After, DeclaresHead, JoinArgs, Digits, TomlString;
    BlockLine(spec, 0);
    BlockLine(spec, 5);
    HeadsDeclare(SettingsOf(spec, BaseUrlOf(spec))[0]);
    HeadsDeclare(SettingsOf(spec, BaseUrlOf(spec))[5]);
  }

  /** The block reads back as the specification: its address, its command with every
      argument, and its timings. */
  lemma BlockReadsBack(spec: Spec)
    requires spec.tokenCommand != [] && Readable(spec.baseUrl)
    requires forall a :: a in spec.tokenCommand ==> Readable(a)
    ensures var lines := BlockLines(spec);
            |lines| == 12 &&
            TomlValue(After("base_url = ", lines[3])) == Some(BaseUrlOf(spec)) &&
            TomlValue(After("command = ", lines[7])) == Some(spec.tokenCommand[0]) &&
            ReadArgs(Bracketed(After("args = ", lines[8]))) == Some(spec.tokenCommand[1..]) &&
            NumberOf(After("timeout_ms = ", lines[9])) == (if spec.timeoutMs > 0 then spec.timeoutMs else 5000) &&
            NumberOf(After("refresh_interval_ms = ", lines[10])) ==
              (if spec.refreshMs > 0 then spec.refreshMs else 300000)
  {
    hide BlockLines, SettingLine, After, TomlValue, ReadArgs, NumberOf;
    hide TomlString, JoinArgs, Digits, Bracketed;
    DefaultIsReadable();
    assert spec.tokenCommand[0] in spec.tokenCommand;
    ReadsBackExactlyWithoutDel(BaseUrlOf(spec));
    ReadsBackExactlyWithoutDel(spec.tokenCommand[0]);
    ArgsReadBack(spec.tokenCommand[1..]);
    BracketsOff(JoinArgs(spec.tokenCommand[1..]));
    DigitsReadBack(Positive(spec.timeoutMs, DEFAULT_TIMEOUT_MS));
    DigitsReadBack(Positive(spec.refreshMs, DEFAULT_REFRESH_MS));
    BlockLine(spec, 2);
    BlockLine(spec, 6);
    BlockLine(spec, 7);
    BlockLine(spec, 8);
    BlockLine(spec, 9);
  }

  lemma FixedSettings(spec: Spec, baseUrl: string)
    requires spec.tokenCommand != []
    ensures var settings := SettingsOf(spec, baseUrl);
            |settings| == 10 && settings[1] == Setting("name = ", "\"OpenRouter\"") &&
            settings[3] == Setting("wire_api = ", "\"responses\"") && settings[4] == Setting("", "")
  {
    hide TomlString, JoinArgs, Digits, Positive;
  }

  /** Its fixed lines name the provider and the protocol that codex is to speak to it. */
  lemma BlockNamesProtocol(spec: Spec)
    requires spec.tokenCommand != []
    ensures var lines := BlockLines(spec);
            |lines| == 12 && lines[2] == "name = " + "\"OpenRouter\"" &&
            lines[4] == "wire_api = " + "\"responses\"" && lines[5] == ""
  {
    hide BlockLines, SettingsOf, After;
    FixedSettings(spec, BaseUrlOf(spec));
    BlockLine(spec, 1);
    BlockLine(spec, 3);
    BlockLine(spec, 4);
  }

  lemma DefaultIsReadable()
    ensures Readable(DEFAULT_BASE_URL)
  {
  }

  /** The inside of a bracketed list. */
  function Bracketed(t: string): string {
    if |t| >= 2 && t[0] == '[' && t[|t| - 1] == ']' then t[1..|t| - 1] else t
  }

  lemma BracketsOff(t: string)
    ensures Bracketed("[" + t + "]") == t
  {
  }

  /** The provider's own table, or the one of its credentials. */
  predicate DeclaresHead(ln: Line) {
    ln == "[model_providers." + PROVIDER + "]" || ln == "[model_providers." + PROVIDER + ".auth]"
  }

  lemma HeadsDeclare(t: Setting)
    requires t.key == "[model_providers." && (t.value == PROVIDER + "]" || t.value == PROVIDER + ".auth]")
    ensures DeclaresHead(SettingLine(t))
  {
    assert "[model_providers." + (PROVIDER + "]") == "[model_providers." + PROVIDER + "]";
    assert "[model_providers." + (PROVIDER + ".auth]") == "[model_providers." + PROVIDER + ".auth]";
  }
}
