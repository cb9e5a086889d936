/** When applying the block is refused, and what the text it writes declares. */
module CodexRefusals {
  import opened TextLines
  import opened TextFiles
  import opened TomlStrings
  import opened CodexDocument
  import opened CodexLaws

  const TABLE := "model_providers." + PROVIDER

  /** The name of the provider's table, or of one of its sub-tables. */
  predicate NamesProvider(header: string) { header == TABLE || HasPrefix(header, TABLE + ".") }

  // ------------------------------------------------------------------- table headers

  lemma {:induction false} BeforeHashStops(s: string, rest: string)
    requires '#' !in s
    ensures BeforeHash(s + "#" + rest) == s && BeforeHash(s) == s
  {
    if s == "" {
      assert s + "#" + rest == "#" + rest;
    } else {
      BeforeHashStops(s[1..], rest);
      assert (s + "#" + rest)[1..] == s[1..] + "#" + rest;
    }
  }

  lemma {:induction false} TrimRightDrops(text: string, tail: string)
    requires text != "" && !IsSpace(text[|text| - 1]) && forall i :: 0 <= i < |tail| ==> IsSpace(tail[i])
    ensures TrimRight(text + tail) == text
  {
    if tail == "" {
      assert text + tail == text;
    } else {
      var n := |tail| - 1;
      assert (text + tail)[..|text + tail| - 1] == text + tail[..n];
      TrimRightDrops(text, tail[..n]);
    }
  }

  lemma TrimDrops(indent: string, text: string, tail: string)
    requires IsIndent(indent) && Tight(text) && forall i :: 0 <= i < |tail| ==> IsSpace(tail[i])
    ensures TrimSpace(indent + text + tail) == text
  {
    assert indent + text + tail == indent + (text + tail);
    TrimLeftSkipsIndent(indent, text + tail);
    TrimRightDrops(text, tail);
  }

  ghost predicate IsHeader(header: string) {
    Tight(header) && '#' !in header && !IsBracket(header[0]) && !IsBracket(header[|header| - 1])
  }

  lemma BracketedIsTight(header: string)
    requires IsHeader(header)
    ensures Tight("[" + header + "]") && '#' !in "[" + header + "]"
    ensures WithoutComment("[" + header + "]") == "[" + header + "]"
  {
  }

  lemma HeaderStands(header: string)
    requires IsHeader(header)
    ensures TrimSpace(header) == header && TrimBrackets(header) == header
  {
    TrimIndented("", header);
    assert "" + header == header;
  }

  lemma TrimmedHeaderDeclares(ln: Line, header: string)
    requires IsHeader(header) && HasPrefix(TrimSpace(ln), "[")
    requires WithoutComment(TrimSpace(ln)) == "[" + header + "]"
    ensures DeclaresLine(ln) <==> NamesProvider(header)
  {
    HeaderStands(header);
    InnerDeclares(ln, header, header);
  }

  lemma InnerDeclares(ln: Line, inner: string, header: string)
    requires HasPrefix(TrimSpace(ln), "[") && WithoutComment(TrimSpace(ln)) == "[" + inner + "]"
    requires TrimSpace(TrimBrackets(TrimSpace(inner))) == header
    ensures DeclaresLine(ln) <==> NamesProvider(header)
  {
    hide TrimSpace, TrimBrackets, WithoutComment;
    var u := "[" + inner + "]";
    assert u[1..|u| - 1] == inner;
  }

  /** An indented table header, with spaces after it, declares exactly what it names, ... */
  lemma HeaderDeclares(indent: string, header: string, tail: string)
    requires IsIndent(indent) && IsHeader(header) && forall i :: 0 <= i < |tail| ==> IsSpace(tail[i])
    ensures DeclaresLine(indent + ("[" + header + "]") + tail) <==> NamesProvider(header)
  {
    hide DeclaresLine, WithoutComment, NamesProvider;
    BracketedIsTight(header);
    TrimDrops(indent, "[" + header + "]", tail);
    TrimmedHeaderDeclares(indent + ("[" + header + "]") + tail, header);
  }

  /** A line that is text, then spaces, then a comment. */
  lemma CommentComesOff(u: string, tail: string, comment: string)
    requires Tight(u) && '#' !in u && (forall i :: 0 <= i < |tail| ==> IsSpace(tail[i])) && Tight("#" + comment)
    ensures var ln := u + tail + "#" + comment;
            Tight(ln) && ln[0] == u[0] && WithoutComment(ln) == u
  {
    var ln := u + tail + "#" + comment;
    assert ln[0] == u[0] && ln[|ln| - 1] == ("#" + comment)[|comment|] && ln[|u + tail|] == '#';
    SpacesHoldNoHash(tail);
    BeforeHashStops(u + tail, comment);
    TrimDrops("", u, tail);
    assert "" + u + tail == u + tail;
  }

  /** ... a comment after it or not, ... */
  lemma CommentedHeaderDeclares(header: string, tail: string, comment: string)
    requires IsHeader(header) && (forall i :: 0 <= i < |tail| ==> IsSpace(tail[i])) && Tight("#" + comment)
    ensures DeclaresLine("[" + header + "]" + tail + "#" + comment) <==> NamesProvider(header)
  {
    hide DeclaresLine, NamesProvider, WithoutComment, TrimSpace;
    var u := "[" + header + "]";
    var ln := u + tail + "#" + comment;
    BracketedIsTight(header);
    CommentComesOff(u, tail, comment);
    TrimIndented("", ln);
    assert "" + ln == ln && ln[..1] == "[";
    TrimmedHeaderDeclares(ln, header);
  }

  lemma SpacesHoldNoHash(tail: string)
    requires forall i :: 0 <= i < |tail| ==> IsSpace(tail[i])
    ensures '#' !in tail
  {
  }

  lemma EnclosedStands(inner: string)
    requires '#' !in inner
    ensures var u := "[" + inner + "]";
            TrimSpace(u) == u && WithoutComment(u) == u && HasPrefix(u, "[") && '#' !in u
  {
    var u := "[" + inner + "]";
    TrimIndented("", u);
    assert "" + u == u && u[..1] == "[";
  }

  lemma {:induction false} BracketsComeOff(header: string)
    requires IsHeader(header)
    ensures TrimBrackets("[" + header + "]") == header
  {
    var u := "[" + header + "]";
    HeaderStands(header);
    assert u[1..] == header + "]" && (header + "]")[..|header|] == header;
    assert TrimBrackets(header + "]") == TrimBrackets(header);
  }

  /** ... in an array of tables, ... */
  lemma ArrayHeaderDeclares(header: string)
    requires IsHeader(header)
    ensures DeclaresLine("[" + ("[" + header + "]") + "]") <==> NamesProvider(header)
  {
    hide NamesProvider, DeclaresLine, TrimBrackets, TrimSpace, WithoutComment, HasPrefix;
    var inner := "[" + header + "]";
    EnclosedStands(header);
    EnclosedStands(inner);
    BracketsComeOff(header);
    HeaderStands(header);
    InnerDeclares("[" + inner + "]", inner, header);
  }

  /** ... and a line that does not open with a bracket declares nothing. */
  lemma OthersDeclareNothing(ln: Line)
    requires Harmless(ln) && (ln == "" || ln[0] != '[')
    ensures !DeclaresLine(ln)
  {
    if ln == "" {
    } else {
      TrimIndented("", ln);
      assert "" + ln == ln;
    }
  }

  // --------------------------------------------------------------------------- refusals

  /** Applying is refused exactly without a token command, or when the text, our own block
      aside, declares the provider; and then nothing is written. */
  lemma RefusedExactlyWhen(existing: string, spec: Spec)
    ensures Applied(existing, spec).NoTokenCommand? <==> spec.tokenCommand == []
    ensures Applied(existing, spec).ForeignProviderBlock? <==>
            spec.tokenCommand != [] && DeclaresAny(Split(Stripped(existing)))
    ensures !Contains(existing, BEGIN) ==> Stripped(existing) == existing
  {
  }

  lemma EndedLines(body: string)
    ensures Split(Ended(body)) == Split(body) || Split(Ended(body)) == Split(body) + [""]
  {
    SplitPushed(body, '\n');
  }

  lemma WrittenSplits(existing: string, spec: Spec)
    requires Applied(existing, spec).Written?
    ensures var body := Stripped(existing);
            Split(Applied(existing, spec).text) ==
            (if body == "" then [] else Split(Ended(body))) + BlockLines(spec) + [""]
  {
    var body := Stripped(existing);
    BlockSplits(spec);
    if body == "" {
      assert Led(body) + Block(spec) == Block(spec);
    } else {
      assert Led(body) + Block(spec) == Joined(Ended(body), Block(spec));
      SplitJoined(Ended(body), Block(spec));
      assert Split(Ended(body)) + (BlockLines(spec) + [""]) == Split(Ended(body)) + BlockLines(spec) + [""];
    }
  }

  lemma TableIsHeader()
    ensures IsHeader(TABLE) && IsHeader(TABLE + ".auth") && NamesProvider(TABLE) && NamesProvider(TABLE + ".auth")
  {
    assert (TABLE + ".auth")[..|TABLE + "."|] == TABLE + ".";
  }

  lemma Regrouped(a: string, b: string, c: string)
    ensures ("[" + a) + b + c == "" + ("[" + (a + b) + c) + ""
  {
  }

  lemma Grouped(a: string, b: string, c: string)
    ensures (a + b) + c == a + (b + c)
  {
  }

  lemma HeadLineDeclares(ln: Line)
    requires DeclaresHead(ln)
    ensures DeclaresLine(ln)
  {
    hide DeclaresLine, NamesProvider;
    TableIsHeader();
    assert "[model_providers." == "[" + "model_providers.";
    if ln == "[model_providers." + PROVIDER + "]" {
      HeaderDeclares("", TABLE, "");
      Regrouped("model_providers.", PROVIDER, "]");
    } else {
      HeaderDeclares("", TABLE + ".auth", "");
      Regrouped("model_providers.", PROVIDER + ".auth", "]");
      Grouped("model_providers.", PROVIDER, ".auth");
      assert ".auth]" == ".auth" + "]";
      Grouped("[model_providers." + PROVIDER, ".auth", "]");
      Grouped("[model_providers.", PROVIDER, ".auth");
    }
  }

  /** Of the block's twelve lines, its two table headers declare the provider, no others. */
  lemma BlockDeclaresTwice(spec: Spec, i: nat)
    requires spec.tokenCommand != [] && i < 12
    ensures |BlockLines(spec)| == 12 && (DeclaresLine(BlockLines(spec)[i]) <==> i == 1 || i == 6)
  {
    hide DeclaresLine, DeclaresHead, Harmless, BlockLines;
    BlockDeclares(spec);
    if i == 1 || i == 6 {
      HeadLineDeclares(BlockLines(spec)[i]);
    } else if i == 0 || i == 11 {
      MarksDeclareNothing();
    } else {
      SettingStarts(spec, i - 1);
      OthersDeclareNothing(BlockLines(spec)[i]);
    }
  }

  lemma MarksDeclareNothing()
    ensures !DeclaresLine(BEGIN) && !DeclaresLine(END)
  {
    MarksAreTight();
    TrimIndented("", BEGIN);
    TrimIndented("", END);
    assert "" + BEGIN == BEGIN && "" + END == END;
  }

  lemma SettingStarts(spec: Spec, i: nat)
    requires spec.tokenCommand != [] && i < 10 && i != 0 && i != 5
    ensures |BlockLines(spec)| == 12
    ensures Harmless(BlockLines(spec)[i + 1]) && (BlockLines(spec)[i + 1] == "" || BlockLines(spec)[i + 1][0] != '[')
  {
    hide TomlString, JoinArgs, Digits, Positive;
    SettingsAreHarmless(spec, BaseUrlOf(spec));
    BlockLine(spec, i);
    var t := SettingsOf(spec, BaseUrlOf(spec))[i];
    assert t.key != "" ==> SettingLine(t)[0] == t.key[0];
  }

  /** What is written declares the provider in our block alone: its table once, and the one
      of its credentials once, whatever the user's text is. */
  lemma WrittenDeclaresOnlyInBlock(existing: string, spec: Spec, i: nat)
    requires Applied(existing, spec).Written? && i < |Split(Applied(existing, spec).text)|
    ensures var lines := Split(Applied(existing, spec).text);
            |lines| >= 13 && (DeclaresLine(lines[i]) <==> i == |lines| - 12 || i == |lines| - 7)
  {
    hide DeclaresLine, BlockLines, Split, Stripped, Applied;
    var body := Stripped(existing);
    var lead := if body == "" then [] else Split(Ended(body));
    WrittenSplits(existing, spec);
    WrittenMeans(existing, spec);
    BlockDeclaresTwice(spec, 0);
    OthersDeclareNothing("");
    EndedLines(body);
    if i < |lead| {
      assert i < |Split(body)| ==> lead[i] == Split(body)[i];
    } else if i < |lead| + 12 {
      BlockDeclaresTwice(spec, i - |lead|);
    }
  }

  lemma WrittenMeans(existing: string, spec: Spec)
    requires Applied(existing, spec).Written?
    ensures spec.tokenCommand != []
    ensures forall i :: 0 <= i < |Split(Stripped(existing))| ==> !DeclaresLine(Split(Stripped(existing))[i])
  {
  }
}
