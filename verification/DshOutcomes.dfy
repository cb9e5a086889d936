/** When applying the key is refused, and what of the document it leaves alone. */
module DshOutcomes {
  import opened TextLines
  import opened TextFiles
  import opened DshDocument
  import opened DshScan
  import opened DshLaws
  import opened DshReapply
  import opened DshRoundTrip
  import opened Options
  import opened DshFile

  /** Applying is refused exactly for a key that is all white space, and for a file with lines
      of which none is a top-level version key; otherwise the edited document is stored. */
  lemma RefusedExactlyWhen(file: string, apiKey: string)
    ensures AppliedFile(file, apiKey).EmptyKey? <==> forall i :: 0 <= i < |apiKey| ==> IsSpace(apiKey[i])
    ensures AppliedFile(file, apiKey).Unversioned? <==>
            !AppliedFile(file, apiKey).EmptyKey? && file != "" && file != "\n" &&
            forall i :: 0 <= i < |ReadLines(file)| ==> !IsVersionKey(ReadLines(file)[i])
  {
    AllSpaceTrims(apiKey);
    ReadsNothing(file);
  }

  lemma {:induction false} AllSpaceTrims(s: string)
    ensures TrimSpace(s) == "" <==> forall i :: 0 <= i < |s| ==> IsSpace(s[i])
  {
    LeftTrimmed(s);
    var t := TrimLeft(s);
    if t != "" {
      TrimLeftIsTight(s);
      TrimRightKeepsHead(t);
    }
  }

  lemma {:induction false} LeftTrimmed(s: string)
    ensures TrimLeft(s) == "" <==> forall i :: 0 <= i < |s| ==> IsSpace(s[i])
  {
    if s != "" && IsSpace(s[0]) {
      LeftTrimmed(s[1..]);
      assert forall i :: 0 < i < |s| ==> s[i] == s[1..][i - 1];
      assert forall i :: 0 <= i < |s| - 1 ==> s[1..][i] == s[i + 1];
    }
  }

  lemma ReadsNothing(file: string)
    ensures ReadLines(file) == [] <==> file == "" || file == "\n"
  {
  }

  /** Outside its section the document is left alone: the lines up to the header stay in
      front, and those after the section at the end; one without a section stays in front. */
  lemma OutsideStays(lines: Doc, apiKey: string)
    ensures match RefsOf(lines)
            case NoSection => lines <= Applied(lines, apiKey)
            case Section(_, start, end) =>
              lines[..start] <= Applied(lines, apiKey) &&
              |Applied(lines, apiKey)| >= |lines[end..]| &&
              Applied(lines, apiKey)[|Applied(lines, apiKey)| - |lines[end..]|..] == lines[end..]
  {
  }

  /** A character that means something in YAML, or white space. */
  predicate Special(c: char) {
    c in ":#'\"[]{},&*!|>%@`?\\" || IsSpace(c)
  }

  /** A key written as it is holds no character that means anything in YAML. */
  lemma PlainIsSafe(v: string)
    ensures PlainScalar(v) ==> forall i :: 0 <= i < |v| ==> !Special(v[i])
    ensures PlainScalar(v) <==> QuoteYaml(v) == v
  {
    if !PlainScalar(v) {
      QuotedIsLonger(v);
    }
  }

  lemma {:induction false} QuotedIsLonger(v: string)
    ensures |DoubleQuotes(v)| >= |v|
  {
    if v != "" {
      QuotedIsLonger(v[1..]);
    }
  }

  /** A scalar as YAML reads it: single-quoted, or plain where it holds nothing special. */
  function ReadScalar(t: string): Option<string> {
    if t != "" && t[0] == '\'' then
      if |t| >= 2 && t[|t| - 1] == '\'' then Undoubled(t[1..|t| - 1]) else None
    else if t != "" && forall i :: 0 <= i < |t| ==> !Special(t[i]) then Some(t)
    else None
  }

  lemma QuotedReadsBack(v: string)
    ensures ReadScalar(QuoteYaml(v)) == Some(v)
  {
    PlainIsSafe(v);
    QuotedKeyReadsBack(v);
    if PlainScalar(v) {
      assert !Special(v[0]);
    }
  }

  /** For every document and key, the one entry for the key reads back as that key. */
  lemma AppliedKeyReadsBack(lines: Doc, apiKey: string)
    ensures var out := Applied(lines, apiKey);
            RefsOf(out).Section? &&
            var body := out[RefsOf(out).start..RefsOf(out).end];
            exists indent, v :: OnlyEntry(body, indent + (REF + ": " + v)) && ReadScalar(v) == Some(apiKey)
  {
    hide Applied, RefsOf, OnlyEntry, ReadScalar, QuoteYaml;
    AppliedKeyIsInForce(lines, apiKey);
    QuotedReadsBack(apiKey);
    var out := Applied(lines, apiKey);
    var body := out[RefsOf(out).start..RefsOf(out).end];
    var indent :| IsIndent(indent) && indent != "" && OnlyEntry(body, KeyLine(indent, apiKey));
    assert OnlyEntry(body, indent + (REF + ": " + QuoteYaml(apiKey)));
  }

  // ----------------------------------------------------- which lines are recognised

  ghost predicate Spaces(s: string) { forall i :: 0 <= i < |s| ==> IsRegexSpace(s[i]) }

  /** Text that does not begin with white space. */
  predicate Starts(t: string) { t == "" || !IsRegexSpace(t[0]) }

  lemma {:induction false} SpacesAreSkipped(space: string, t: string)
    requires Spaces(space) && Starts(t)
    ensures SkipRegexSpace(space + t) == t
  {
    if space == "" {
      assert space + t == t;
    } else {
      SpacesAreSkipped(space[1..], t);
      assert (space + t)[1..] == space[1..] + t;
    }
  }

  /** The section's header is "refs:" at the start of its line, and after any space nothing
      but a comment. */
  lemma RefsKeyIs(space: string, t: string)
    requires Spaces(space) && Starts(t)
    ensures IsRefsKey("refs:" + space + t) <==> t == "" || t[0] == '#'
    ensures forall ln :: IsRefsKey(ln) ==> HasPrefix(ln, "refs:")
  {
    var ln := "refs:" + space + t;
    assert ln[5..] == space + t && ln[..5] == "refs:";
    SpacesAreSkipped(space, t);
  }

  /** An entry for the key is indented, names the key, and has a colon after any space. */
  lemma RefLineIs(indent: string, space: string, t: string)
    requires Spaces(indent) && Spaces(space) && Starts(t)
    ensures IsRefLine(indent + (REF + space + t)) <==> indent != "" && HasPrefix(t, ":")
  {
    var text := REF + space + t;
    assert text[|REF|..] == space + t && text[..|REF|] == REF && text[0] == 'D';
    SpacesAreSkipped(indent, text);
    SpacesAreSkipped(space, t);
  }

  lemma OtherKeysAreNotEntries(indent: string, t: string)
    requires Spaces(indent) && Starts(t) && !HasPrefix(t, REF)
    ensures !IsRefLine(indent + t)
  {
    SpacesAreSkipped(indent, t);
  }

  /** The version key is "version" at the start of its line, and a colon after any space. */
  lemma VersionKeyIs(space: string, t: string)
    requires Spaces(space) && Starts(t)
    ensures IsVersionKey("version" + space + t) <==> HasPrefix(t, ":")
    ensures forall ln :: IsVersionKey(ln) ==> HasPrefix(ln, "version")
  {
    var ln := "version" + space + t;
    assert ln[|"version"|..] == space + t && ln[..|"version"|] == "version";
    SpacesAreSkipped(space, t);
  }
}
