/** The credential file itself: reading its lines, and writing them back. */
module DshFile {
  import opened TextLines
  import opened TextFiles
  import opened DshDocument
  import opened DshScan
  import opened DshLaws
  import opened DshReapply

  function WithoutLastNewline(s: string): string {
    if s != "" && s[|s| - 1] == '\n' then s[..|s| - 1] else s
  }

  /** No lines for an empty file, and no empty last line for the final newline. */
  function ReadLines(file: string): Doc {
    if WithoutLastNewline(file) == "" then [] else Split(WithoutLastNewline(file))
  }

  function WriteLines(lines: Doc): string {
    var content := Join(lines);
    if content != "" && content[|content| - 1] == '\n' then content else content + "\n"
  }

  predicate IsVersionKey(ln: Line) {
    HasPrefix(ln, "version") && HasPrefix(SkipRegexSpace(ln[|"version"|..]), ":")
  }

  /** No file yet, or one that carries a top-level version. */
  predicate Versioned(doc: Doc) { doc == [] || exists i :: 0 <= i < |doc| && IsVersionKey(doc[i]) }

  datatype Outcome = Stored(content: string) | EmptyKey | Unversioned

  /** What applying a key leaves in the file. */
  function AppliedFile(file: string, apiKey: string): Outcome {
    var key := TrimSpace(apiKey);
    if key == "" then EmptyKey
    else if !Versioned(ReadLines(file)) then Unversioned
    else Stored(WriteLines(Applied(ReadLines(file), key)))
  }

  // --------------------------------------------------------------- writing, then reading

  lemma JoinEnds(init: Doc, last: Line)
    requires init != []
    ensures Join(init + [last]) == Joined(Join(init), last) && Join(init + [last]) != ""
  {
    assert (init + [last])[..|init|] == init;
  }

  lemma WrittenOpen(init: Doc, last: Line)
    requires init != [] && last != "" && OneLine(last)
    ensures WriteLines(init + [last]) == Join(init + [last]) + "\n"
  {
    JoinEnds(init, last);
    var content := Joined(Join(init), last);
    assert content[|content| - 1] == last[|last| - 1];
  }

  lemma WrittenClosed(init: Doc)
    requires init != []
    ensures WriteLines(init + [""]) == Join(init) + "\n"
  {
    JoinEnds(init, "");
    assert Joined(Join(init), "") == Join(init) + "\n";
  }

  lemma ReadWritten(lines: Doc)
    requires AllOneLine(lines) && Join(lines) != "" && lines != []
    ensures ReadLines(Join(lines) + "\n") == lines
  {
    var t := Join(lines);
    assert (t + "\n")[..|t|] == t;
    SplitOfJoin(lines);
  }

  /** A document's lines come back, but for one empty line at its end. */
  lemma ReadBack(init: Doc, last: Line)
    requires |init| > 1 && AllOneLine(init) && OneLine(last)
    ensures ReadLines(WriteLines(init + [last])) == if last == "" then init else init + [last]
  {
    JoinEnds(init[..|init| - 1], init[|init| - 1]);
    assert init == init[..|init| - 1] + [init[|init| - 1]];
    JoinEnds(init, last);
    if last == "" {
      WrittenClosed(init);
      ReadWritten(init);
    } else {
      WrittenOpen(init, last);
      ReadWritten(init + [last]);
    }
  }

  // -------------------------------------------------------- every written line is one line

  lemma IndentIsOneLine(s: string)
    requires IsIndent(s)
    ensures OneLine(s)
  {
  }

  lemma {:induction false} QuotesAreOneLine(v: string)
    requires OneLine(v)
    ensures OneLine(DoubleQuotes(v))
  {
    if v != "" {
      QuotesAreOneLine(v[1..]);
    }
  }

  lemma {:induction false} TrimLeftIsOneLine(s: string)
    requires OneLine(s)
    ensures OneLine(TrimLeft(s))
  {
    if s != "" {
      TrimLeftIsOneLine(s[1..]);
    }
  }

  lemma {:induction false} TrimRightIsOneLine(s: string)
    requires OneLine(s)
    ensures OneLine(TrimRight(s))
  {
    if s != "" {
      TrimRightIsOneLine(s[..|s| - 1]);
    }
  }

  lemma TrimIsOneLine(s: string)
    requires OneLine(s)
    ensures OneLine(TrimSpace(s))
  {
    TrimLeftIsOneLine(s);
    TrimRightIsOneLine(TrimLeft(s));
  }

  lemma {:induction false} ParkedIsOneLine(body: Doc)
    requires AllOneLine(body)
    ensures OneLine(Parked(body))
  {
    if body == [] {
    } else {
      var n := |body| - 1;
      ParkedIsOneLine(body[..n]);
      TrimIsOneLine(body[n]);
    }
  }

  lemma TitleIsOneLine()
    ensures OneLine(TITLE)
  {
    assert OneLine(" foxy-switcher ");
    assert OneLine("deepseek — managed, ");
    assert OneLine("do not edit ");
  }

  lemma MarksAreOneLine()
    ensures OneLine(BEGIN) && OneLine(END) && OneLine(SAVED) && OneLine(REF + ": ")
  {
    TitleIsOneLine();
    assert OneLine("# >>>") && OneLine(">>>") && OneLine("# <<<") && OneLine("<<<");
    assert OneLine("# foxy") && OneLine("-switcher:saved") && OneLine(" ");
  }

  lemma BlockIsOneLine(indent: string, apiKey: string, saved: string)
    requires IsIndent(indent) && OneLine(apiKey) && OneLine(saved)
    ensures AllOneLine(ManagedBlock(indent, apiKey, saved))
  {
    MarksAreOneLine();
    IndentIsOneLine(indent);
    QuotesAreOneLine(apiKey);
  }

  // -------------------------------------------------------------------- applying twice

  /** The document to be written ends in two empty lines. */
  predicate EndsInTwoEmpty(lines: Doc) {
    |lines| >= 2 && lines[|lines| - 1] == "" && lines[|lines| - 2] == ""
  }

  /** What follows the block ends in two empty lines: the section's kept lines behind the
      block's place, then the rest of the document. */
  predicate LeavesTwoEmpty(doc: Doc) {
    match RefsOf(doc)
    case NoSection => false
    case Section(_, start, end) => EndsInTwoEmpty(Kept(doc[start..end])[Place(doc[start..end])..] + doc[end..])
  }

  lemma EndAfterText(a: Doc, c: Doc)
    requires a != [] && a[|a| - 1] != ""
    ensures EndsInTwoEmpty(a + c) <==> EndsInTwoEmpty(c)
  {
  }

  lemma Regrouped(a: Doc, b1: Doc, m: Doc, b2: Doc, c: Doc)
    ensures a + (b1 + m + b2) + c == a + b1 + m + (b2 + c)
  {
  }

  lemma BlockEndsInText(a: Doc, indent: string, apiKey: string, saved: string)
    requires IsIndent(indent) && indent != ""
    ensures var d := a + ManagedBlock(indent, apiKey, saved); d != [] && d[|d| - 1] != ""
  {
    var m := ManagedBlock(indent, apiKey, saved);
    BlockIsInside(indent, apiKey, saved);
    EmptyIsBlank();
    assert (a + m)[|a + m| - 1] == m[|m| - 1];
  }

  /** Whether the document to be written ends in two empty lines is known beforehand,
      whatever the key. */
  lemma TwoEmptyIsKnown(doc: Doc, apiKey: string)
    ensures EndsInTwoEmpty(Applied(doc, apiKey)) <==> LeavesTwoEmpty(doc)
  {
    hide ManagedBlock, Kept, Place, Parked, IsIndent, EndsInTwoEmpty;
    match RefsOf(doc)
    case NoSection =>
      assert IsIndent(NEW_INDENT) by { IndentOfIsIndent([]); }
      BlockEndsInText(doc + Separator(doc) + ["refs:"], NEW_INDENT, apiKey, "");
      NothingAfter(Applied(doc, apiKey));
      EndAfterText(Applied(doc, apiKey), []);
      NothingEndsInTwo();
    case Section(indent, start, end) =>
      var body := doc[start..end];
      var b1, b2 := Kept(body)[..Place(body)], Kept(body)[Place(body)..];
      Located(doc);
      IndentOfIsIndent(body);
      BlockEndsInText(doc[..start] + b1, indent, apiKey, Parked(body));
      Regrouped(doc[..start], b1, ManagedBlock(indent, apiKey, Parked(body)), b2, doc[end..]);
      EndAfterText(doc[..start] + b1 + ManagedBlock(indent, apiKey, Parked(body)), b2 + doc[end..]);
  }

  lemma NothingEndsInTwo()
    ensures !EndsInTwoEmpty([])
  {
  }

  /** Parts without the last of their remaining lines. */
  function Shorter(p: Parts): Parts { if p.rest == [] then p else p.(rest := p.rest[..|p.rest| - 1]) }

  lemma {:induction false} InsideOfPrefix(tail: Doc, n: nat)
    requires n <= |tail|
    ensures InsideCount(tail[..n]) <= InsideCount(tail)
  {
    if n > 0 && Inside(tail[0]) {
      InsideOfPrefix(tail[1..], n - 1);
      assert tail[..n][1..] == tail[1..][..n - 1];
    }
  }

  lemma ClosesShorter(post: Doc, n: nat)
    requires Closes(post) && n <= |post|
    ensures Closes(post[..n])
  {
    InsideOfPrefix(post, n);
    CoreStops(post, InsideCount(post));
    AllBlankHasNoCore(post[..n], InsideCount(post[..n]));
  }

  lemma ReadIsOneLine(file: string)
    ensures AllOneLine(ReadLines(file))
  {
    SplitsAreOneLine(WithoutLastNewline(file));
  }

  lemma EditedIsOneLine(body: Doc, indent: string, apiKey: string)
    requires AllOneLine(body) && IsIndent(indent) && OneLine(apiKey)
    ensures AllOneLine(Edited(body, indent, apiKey))
  {
    KeptArePlain(body);
    ParkedIsOneLine(body);
    BlockIsOneLine(indent, apiKey, Parked(body));
    assert forall i :: 0 <= i < |Kept(body)| ==> Kept(body)[i] in body;
  }

  lemma JoinedDocsAreOneLine(a: Doc, b: Doc, c: Doc)
    requires AllOneLine(a) && AllOneLine(b) && AllOneLine(c)
    ensures AllOneLine(a + b + c)
  {
  }

  lemma AppendedIsOneLine(doc: Doc)
    requires AllOneLine(doc)
    ensures AllOneLine(doc + Separator(doc) + ["refs:"])
  {
    assert OneLine("version: 1") && OneLine("refs:");
    JoinedDocsAreOneLine(doc, Separator(doc), ["refs:"]);
  }

  lemma AppliedIsOneLine(doc: Doc, apiKey: string)
    requires AllOneLine(doc) && OneLine(apiKey)
    ensures AllOneLine(Applied(doc, apiKey))
  {
    match RefsOf(doc)
    case NoSection =>
      AppendedIsOneLine(doc);
      BlockIsOneLine(NEW_INDENT, apiKey, "");
      JoinedDocsAreOneLine(doc + Separator(doc) + ["refs:"], ManagedBlock(NEW_INDENT, apiKey, ""), []);
      NothingAfter(doc + Separator(doc) + ["refs:"] + ManagedBlock(NEW_INDENT, apiKey, ""));
    case Section(indent, start, end) =>
      Located(doc);
      IndentOfIsIndent(doc[start..end]);
      EditedIsOneLine(doc[start..end], indent, apiKey);
      JoinedDocsAreOneLine(doc[..start], Edited(doc[start..end], indent, apiKey), doc[end..]);
  }

  lemma NothingAfter(a: Doc)
    ensures a + [] == a
  {
  }

  lemma VersionIsOutside(ln: Line)
    requires IsVersionKey(ln)
    ensures !Inside(ln)
  {
    assert ln[0] == "version"[0];
    TrimIndented("", ln);
    assert "" + ln == ln;
  }

  lemma SplicedKeeps(doc: Doc, start: nat, end: nat, mid: Doc, i: nat) returns (j: nat)
    requires start <= end <= |doc| && i < |doc| && !(start <= i < end)
    ensures j < |doc[..start] + mid + doc[end..]| && (doc[..start] + mid + doc[end..])[j] == doc[i]
  {
    j := if i < start then i else i + |mid| - (end - start);
  }

  /** The version line is never in the section, so it survives. */
  lemma VersionSurvives(doc: Doc, apiKey: string)
    requires Versioned(doc)
    ensures exists i :: 0 <= i < |Applied(doc, apiKey)| && IsVersionKey(Applied(doc, apiKey)[i])
  {
    if doc == [] {
      FreshIsVersioned();
      assert Applied(doc, apiKey)[0] == "version: 1";
    } else {
      var i :| 0 <= i < |doc| && IsVersionKey(doc[i]);
      var j := VersionLineSurvives(doc, apiKey, i);
    }
  }

  lemma VersionLineSurvives(doc: Doc, apiKey: string, i: nat) returns (j: nat)
    requires i < |doc| && IsVersionKey(doc[i])
    ensures j < |Applied(doc, apiKey)| && Applied(doc, apiKey)[j] == doc[i]
  {
    match RefsOf(doc)
    case NoSection =>
      j := i;
    case Section(indent, start, end) =>
      OutsideSection(doc, i);
      j := SplicedKeeps(doc, start, end, Edited(doc[start..end], indent, apiKey), i);
  }

  lemma OutsideSection(doc: Doc, i: nat)
    requires i < |doc| && IsVersionKey(doc[i]) && RefsOf(doc).Section?
    ensures !(RefsOf(doc).start <= i < RefsOf(doc).end)
  {
    var sec := RefsOf(doc);
    Located(doc);
    VersionIsOutside(doc[i]);
  }

  lemma FreshIsVersioned()
    ensures IsVersionKey("version: 1")
  {
    assert "version: 1"[|"version"|..] == ": 1";
  }

  lemma LastLineOff(x: Doc)
    requires x != []
    ensures x == x[..|x| - 1] + [x[|x| - 1]]
  {
  }

  lemma ShorterIsWellFormed(p: Parts)
    requires WellFormed(p)
    ensures WellFormed(Shorter(p)) && Found(Shorter(p)) == Shorter(Found(p))
  {
    if p.rest != [] {
      ClosesShorter(p.rest, |p.rest| - 1);
    }
  }

  lemma LastOff3(a: Doc, b: Doc, c: Doc)
    requires c != []
    ensures a + b + c == a + b + c[..|c| - 1] + [c[|c| - 1]]
  {
  }

  lemma LastOf2(a: Doc, b: Doc)
    requires b != []
    ensures (a + b + [])[|a + b + []| - 1] == b[|b| - 1]
  {
  }

  lemma LastOfWith(p: Parts, k: string)
    requires WellFormed(p)
    ensures |With(p, k)| > 3
    ensures p.rest == [] ==> With(p, k)[|With(p, k)| - 1] != ""
    ensures p.rest != [] ==> With(p, k) == With(Shorter(p), k) + [p.rest[|p.rest| - 1]]
  {
    BlockIsInside(p.indent, k, p.saved);
    var body := Around(p.b1, p.indent, k, p.saved, p.c2);
    assert |body| >= 3;
    if p.rest == [] {
      AroundIsBody(p, k);
      EmptyIsBlank();
      LastOf2(p.pre, body);
    } else {
      LastOff3(p.pre, body, p.rest);
    }
  }

  lemma EmptyIsBlank()
    ensures Blank("")
  {
  }

  predicate EndsEmpty(rest: Doc) { rest != [] && rest[|rest| - 1] == "" }

  /** Parts as a file keeps them: without an empty last line. */
  function Filed(p: Parts): Parts { if EndsEmpty(p.rest) then Shorter(p) else p }

  /** Once a key was applied, the file's lines are the same parts, as filed. */
  lemma ReadApplied(p: Parts, k: string)
    requires WellFormed(p) && AllOneLine(With(p, k))
    ensures ReadLines(WriteLines(With(p, k))) == With(Filed(p), k)
  {
    hide IsSentinel, IsRefLine, LeadingSpace, ManagedBlock;
    var lines := With(p, k);
    LastOfWith(p, k);
    LastLineOff(lines);
    ReadBack(lines[..|lines| - 1], lines[|lines| - 1]);
  }

  lemma FiledIsWellFormed(p: Parts)
    requires WellFormed(p)
    ensures WellFormed(Filed(p)) && Found(Filed(p)) == Filed(Found(p))
  {
    ShorterIsWellFormed(p);
  }

  lemma WrittenWithoutLast(x: Doc, longer: Doc)
    requires |x| > 1 && longer == x + [""] && x[|x| - 1] != "" && AllOneLine(longer)
    ensures WriteLines(x) == WriteLines(longer)
  {
    LastLineOff(x);
    assert longer[|x| - 1] == x[|x| - 1];
    WrittenOpen(x[..|x| - 1], x[|x| - 1]);
    WrittenClosed(x);
  }

  /** An empty last line is not seen in what is written. */
  lemma FiledWritesTheSame(p: Parts, k: string)
    requires WellFormed(p) && !EndsEmpty(Filed(p).rest) && AllOneLine(With(p, k))
    ensures WriteLines(With(Filed(p), k)) == WriteLines(With(p, k))
  {
    if EndsEmpty(p.rest) {
      ShorterIsWellFormed(p);
      LastOfWith(p, k);
      LastOfWith(Shorter(p), k);
      WrittenWithoutLast(With(Shorter(p), k), With(p, k));
    }
  }

  /** Parts that differ in length are not the same. */
  lemma FiledTwice(p: Parts, q: Parts, k: string)
    requires WellFormed(p) && WellFormed(q) && q == p.(indent := q.indent) && EndsEmpty(p.rest)
    ensures With(Filed(q), k) != With(p, k)
  {
    LastOfWith(q, k);
    assert |With(q, k)| == |With(p, k)|;
  }

  lemma TwoEmptyAtEnd(p: Parts, k: string)
    requires WellFormed(p)
    ensures EndsInTwoEmpty(With(p, k)) <==> EndsEmpty(p.rest) && EndsEmpty(Filed(p).rest)
  {
    hide With, WellFormed;
    LastOfWith(p, k);
    ShorterIsWellFormed(p);
    LastOfWith(Shorter(p), k);
    if EndsEmpty(p.rest) {
      PairAtEnd(With(Shorter(p), k));
    }
  }

  lemma PairAtEnd(x: Doc)
    requires x != []
    ensures EndsInTwoEmpty(x + [""]) <==> x[|x| - 1] == ""
  {
  }

  lemma RewrittenExactlyWhen(p: Parts, k: string)
    requires WellFormed(p) && AllOneLine(With(Found(Filed(p)), k)) && AllOneLine(With(p, k))
    ensures WriteLines(With(Found(Filed(p)), k)) == WriteLines(With(p, k)) <==>
            Found(p) == p && !EndsEmpty(Filed(p).rest)
  {
    var q := Filed(p);
    FiledIsWellFormed(p);
    FoundIsWellFormed(q);
    ReadApplied(p, k);
    ReadApplied(Found(q), k);
    IndentsShow(q, Found(q), k);
    if EndsEmpty(q.rest) {
      FiledTwice(q, Found(q), k);
    } else if Found(q) == q {
      FiledWritesTheSame(p, k);
    }
  }

  /** Applying a second key leaves the file as if it alone had been applied exactly
      when the section keeps its indent and what follows the block does not end in two
      empty lines: each write takes one of those off. */
  lemma FileReappliedExactlyWhen(file: string, k1: string, k2: string)
    requires AppliedFile(file, k1).Stored? && TrimSpace(k2) != ""
    requires OneLine(TrimSpace(k1)) && OneLine(TrimSpace(k2))
    ensures AppliedFile(AppliedFile(file, k1).content, k2).Stored?
    ensures AppliedFile(AppliedFile(file, k1).content, k2) == AppliedFile(file, k2) <==>
            KeepsIndent(ReadLines(file)) && !LeavesTwoEmpty(ReadLines(file))
  {
    var doc, key1, key2 := ReadLines(file), TrimSpace(k1), TrimSpace(k2);
    ReadIsOneLine(file);
    AppliedIsOneLine(doc, key1);
    AppliedIsOneLine(doc, key2);
    var p := PartsOf(doc);
    var q := Filed(p);
    ReadApplied(p, key1);
    FiledIsWellFormed(p);
    VersionSurvives(doc, key1);
    StillVersioned(p, key1);
    EditAgain(q, key1, key2);
    ReadIsOneLine(AppliedFile(file, k1).content);
    AppliedIsOneLine(With(q, key1), key2);
    RewrittenExactlyWhen(p, key2);
    TwoEmptyAtEnd(p, key1);
    TwoEmptyIsKnown(doc, key1);
  }

  /** What is written reads back as the document, but for one empty line at its end,
      exactly when the key is on one line. */
  lemma WrittenReadsBackExactlyWhen(doc: Doc, apiKey: string)
    requires AllOneLine(doc)
    ensures var out := Applied(doc, apiKey);
            ReadLines(WriteLines(out)) == (if EndsEmpty(out) then out[..|out| - 1] else out) <==> OneLine(apiKey)
  {
    var out := Applied(doc, apiKey);
    var p := PartsOf(doc);
    LastOfWith(p, apiKey);
    if OneLine(apiKey) {
      AppliedIsOneLine(doc, apiKey);
      LastLineOff(out);
      ReadBack(out[..|out| - 1], out[|out| - 1]);
    } else {
      ReadIsOneLine(WriteLines(out));
      KeyIsWritten(p, apiKey);
    }
  }

  lemma QuoteKeepsNewline(v: string)
    requires !OneLine(v)
    ensures !OneLine(QuoteYaml(v))
  {
    if !PlainScalar(v) {
      DoublingKeepsNewline(v);
    }
  }

  lemma {:induction false} DoublingKeepsNewline(v: string)
    requires !OneLine(v)
    ensures !OneLine(DoubleQuotes(v))
  {
    if v[0] != '\n' {
      DoublingKeepsNewline(v[1..]);
    }
  }

  /** The block's key line, ahead of its last line, breaks where the key does. */
  lemma KeyIsWritten(p: Parts, apiKey: string)
    requires WellFormed(p) && !OneLine(apiKey)
    ensures exists i :: 0 <= i < |With(p, apiKey)| - 1 && !OneLine(With(p, apiKey)[i])
  {
    hide IsRefLine;
    var m := ManagedBlock(p.indent, apiKey, p.saved);
    BlockHasOneEntry(p.indent, apiKey, p.saved);
    QuoteKeepsNewline(apiKey);
    var key := KeyLine(p.indent, apiKey);
    assert !OneLine(key);
    var at := |p.pre| + |p.b1| + |m| - 2;
    assert With(p, apiKey)[at] == m[|m| - 2];
  }

  lemma StillVersioned(p: Parts, k: string)
    requires WellFormed(p) && exists i :: 0 <= i < |With(p, k)| && IsVersionKey(With(p, k)[i])
    ensures Versioned(With(Filed(p), k))
  {
    LastOfWith(p, k);
    var i :| 0 <= i < |With(p, k)| && IsVersionKey(With(p, k)[i]);
    assert !IsVersionKey("");
    assert With(Filed(p), k)[i] == With(p, k)[i];
  }

  // ------------------------------------------------------------- where it is not idempotent

  /** A section followed by two empty lines at the end of the file: applying the same
      key twice does not leave the file byte-identical. */
  lemma TrailingBlanksChurn(file: string, k: string)
    requires AppliedFile(file, k).Stored? && OneLine(TrimSpace(k))
    requires RefsOf(ReadLines(file)).Section? && EndsInTwoEmpty(ReadLines(file))
    ensures AppliedFile(AppliedFile(file, k).content, k) != AppliedFile(file, k)
  {
    BlanksStayAtEnd(ReadLines(file), TrimSpace(k));
    TwoEmptyIsKnown(ReadLines(file), TrimSpace(k));
    FileReappliedExactlyWhen(file, k, k);
  }

  lemma BlanksFollowBody(body: Doc, post: Doc)
    requires IsBody(body) && EndsInTwoEmpty(body + post)
    ensures EndsInTwoEmpty(post)
  {
    EmptyIsBlank();
  }

  lemma BlanksStayAtEnd(doc: Doc, k: string)
    requires RefsOf(doc).Section? && EndsInTwoEmpty(doc)
    ensures EndsInTwoEmpty(Applied(doc, k))
  {
    var sec := RefsOf(doc);
    Located(doc);
    HeaderIsNotEmpty(doc);
    BlanksFollowBody(doc[sec.start..sec.end], doc[sec.end..]);
    AfterEndsInTwoEmpty(doc[..sec.start] + Edited(doc[sec.start..sec.end], sec.indent, k), doc[sec.end..]);
  }

  lemma HeaderIsNotEmpty(doc: Doc)
    requires RefsOf(doc).Section? && EndsInTwoEmpty(doc)
    ensures var sec := RefsOf(doc); EndsInTwoEmpty(doc[sec.start..sec.end] + doc[sec.end..])
  {
    var sec := RefsOf(doc);
    HeadIsKey(doc);
    assert doc[sec.start..sec.end] + doc[sec.end..] == doc[sec.start..];
    assert doc[sec.start - 1] != "";
  }

  lemma AfterEndsInTwoEmpty(a: Doc, b: Doc)
    requires EndsInTwoEmpty(b)
    ensures EndsInTwoEmpty(a + b)
  {
  }

  const EXAMPLE: Doc := ["version: 1", "refs:"] + ["  " + "A: x"] + ["", ""]

  lemma ExampleHeader()
    ensures EndsInHeader(["version: 1", "refs:"])
  {
    var pre: Doc := ["version: 1", "refs:"];
    assert pre[1..] == ["refs:"] && "refs:"[5..] == "" && IsRefsKey("refs:");
    assert !IsRefsKey("version: 1") by {
      assert "version: 1"[0] != "refs:"[0];
    }
  }

  lemma ExampleBody()
    ensures IsBody(["  " + "A: x"]) && Closes(["", ""])
  {
    IndentedLineIsInside("  ", "A: x");
    EmptyIsBlank();
    BlanksClose(["", ""], []);
    assert ["", ""] + [] == ["", ""];
  }

  lemma ExampleHasSection()
    ensures RefsOf(EXAMPLE).Section? && Versioned(EXAMPLE) && AllOneLine(EXAMPLE)
  {
    hide IsBody, Closes, EndsInHeader, RefsOf;
    FreshIsVersioned();
    ExampleHeader();
    ExampleBody();
    assert EXAMPLE[0] == "version: 1";
    Locate(["version: 1", "refs:"], ["  " + "A: x"], ["", ""]);
  }

  /** One such file, ending in three newlines after an entry of the user's. */
  lemma ExampleChurns(k: string)
    requires TrimSpace(k) != "" && OneLine(TrimSpace(k))
    ensures var file := WriteLines(EXAMPLE + [""]);
            AppliedFile(file, k).Stored? && AppliedFile(AppliedFile(file, k).content, k) != AppliedFile(file, k)
  {
    ExampleHasSection();
    ReadBack(EXAMPLE, "");
    TrailingBlanksChurn(WriteLines(EXAMPLE + [""]), k);
  }
}
