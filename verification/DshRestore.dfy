/** Taking the key out of the credential file again, on the file's own bytes. */
module DshRestore {
  import opened TextLines
  import opened TextFiles
  import opened DshDocument
  import opened DshScan
  import opened DshLaws
  import opened DshReapply
  import opened DshFile
  import opened DshRoundTrip

  /** What removing leaves in the file; one without a block is not written at all. */
  function RemovedFile(file: string): string {
    var doc := ReadLines(file);
    var s := StripFrom(UNSTRIPPED, doc);
    if doc == [] || !s.changed then file else WriteLines(WithoutEmptyRefs(s.out))
  }

  predicate EndsInNewline(file: string) { file != "" && file[|file| - 1] == '\n' }

  /** A file that applying and removing leaves as it was: it ends in exactly one
      newline, and it has no section, or one whose only key entry, if any, comes back. */
  predicate ReversibleFile(file: string) {
    var doc := ReadLines(file);
    doc != [] && EndsInNewline(file) && !EndsEmpty(doc) &&
    match RefsOf(doc)
    case NoSection => true
    case Section(indent, start, end) => start < end && Untouched(doc[start..end], indent)
  }

  // ------------------------------------------------------------- what a file's lines tell

  lemma FileIsItsLines(file: string)
    requires ReadLines(file) != []
    ensures EndsInNewline(file) <==> file == Join(ReadLines(file)) + "\n"
  {
    hide Split, Join;
    JoinOfSplit(WithoutLastNewline(file));
    LastNewlineBack(file);
  }

  lemma LastNewlineBack(file: string)
    ensures EndsInNewline(file) <==> file == WithoutLastNewline(file) + "\n"
  {
  }

  lemma LastEndsJoin(lines: Doc)
    requires lines != [] && !EndsEmpty(lines) && AllOneLine(lines)
    ensures Join(lines) != "" && Join(lines)[|Join(lines)| - 1] != '\n'
  {
    var n := |lines| - 1;
    assert OneLine(lines[n]);
    if n > 0 {
      LastLineOff(lines);
      JoinEnds(lines[..n], lines[n]);
      assert Join(lines)[|Join(lines)| - 1] == lines[n][|lines[n]| - 1];
    }
  }

  /** Lines that end in text are written in full and read back; an empty last line is
      lost. */
  lemma ReadWrittenLines(lines: Doc)
    requires AllOneLine(lines) && lines != []
    ensures !EndsEmpty(lines) ==> WriteLines(lines) == Join(lines) + "\n" && ReadLines(WriteLines(lines)) == lines
    ensures EndsEmpty(lines) ==> |ReadLines(WriteLines(lines))| < |lines|
  {
    var n := |lines| - 1;
    if !EndsEmpty(lines) {
      LastEndsJoin(lines);
      ReadWritten(lines);
    } else if n == 0 {
      assert lines == [""] && WithoutLastNewline("\n") == "";
    } else {
      LastLineOff(lines);
      WrittenClosed(lines[..n]);
      assert WithoutLastNewline(Join(lines[..n]) + "\n") == Join(lines[..n]);
      SplitOfJoin(lines[..n]);
    }
  }

  lemma WrittenIsNeverLonger(lines: Doc)
    requires AllOneLine(lines)
    ensures |ReadLines(WriteLines(lines))| <= |lines|
    ensures |ReadLines(WriteLines(lines))| == |lines| && lines != [] ==> ReadLines(WriteLines(lines)) == lines
  {
    if lines != [] {
      ReadWrittenLines(lines);
    } else {
      assert WithoutLastNewline("\n") == "";
    }
  }

  /** Writing a file's own lines gives the file exactly when it ends in one newline. */
  lemma WrittenIsFileExactlyWhen(file: string)
    requires ReadLines(file) != []
    ensures WriteLines(ReadLines(file)) == file <==> EndsInNewline(file) && !EndsEmpty(ReadLines(file))
  {
    ReadIsOneLine(file);
    ReadWrittenLines(ReadLines(file));
    FileIsItsLines(file);
  }

  // ------------------------------------------------------- the block between two stretches

  /** Unmarked lines, the block's own data, unmarked lines. */
  datatype Halves = Halves(a: Doc, c: Doc, indent: string, saved: string)

  ghost predicate Sound(h: Halves) {
    NoSentinel(h.a) && NoSentinel(h.c) && AllOneLine(h.a) && AllOneLine(h.c) &&
    IsIndent(h.indent) && h.indent != "" && OneLine(h.saved) && (h.saved == "" || Parkable(h.saved))
  }

  function Marked(h: Halves, apiKey: string): Doc { h.a + ManagedBlock(h.indent, apiKey, h.saved) + h.c }

  function Back(h: Halves): Doc { h.a + Restored(h.indent, h.saved) + h.c }

  function WithoutEmptyLast(lines: Doc): Doc { if EndsEmpty(lines) then lines[..|lines| - 1] else lines }

  function Filed(h: Halves): Halves { h.(c := WithoutEmptyLast(h.c)) }

  lemma SectionHalves(doc: Doc, apiKey: string) returns (h: Halves)
    requires NoSentinel(doc) && AllOneLine(doc) && RefsOf(doc).Section?
    ensures Sound(h) && Applied(doc, apiKey) == Marked(h, apiKey)
    ensures var sec := RefsOf(doc);
            Back(h) == doc[..sec.start] + Returned(doc[sec.start..sec.end], sec.indent) + doc[sec.end..]
  {
    hide IsSentinel, IsRefLine, ManagedBlock;
    var sec := RefsOf(doc);
    var pre, body, post := doc[..sec.start], doc[sec.start..sec.end], doc[sec.end..];
    var b1, b2 := Kept(body)[..Place(body)], Kept(body)[Place(body)..];
    UnmarkedParts(doc, sec.start, sec.end);
    Located(doc);
    IndentOfIsIndent(body);
    KeptArePlain(body);
    KeptAreOneLine(body);
    ParkedIsParkable(body);
    ParkedIsOneLine(body);
    h := Halves(pre + b1, b2 + post, sec.indent, Parked(body));
    Rejoin(pre, b1, ManagedBlock(sec.indent, apiKey, Parked(body)), b2, post);
    Rejoin(pre, b1, Restored(sec.indent, Parked(body)), b2, post);
  }

  lemma KeptAreOneLine(body: Doc)
    requires AllOneLine(body)
    ensures AllOneLine(Kept(body))
  {
    KeptArePlain(body);
    assert forall i :: 0 <= i < |Kept(body)| ==> Kept(body)[i] in body;
  }

  lemma AppendedHalves(doc: Doc, apiKey: string) returns (h: Halves)
    requires NoSentinel(doc) && AllOneLine(doc) && RefsOf(doc).NoSection?
    ensures Sound(h) && h.c == [] && Applied(doc, apiKey) == Marked(h, apiKey)
    ensures WithoutEmptyRefs(Back(h)) == doc + Separator(doc)
  {
    hide IsSentinel, ManagedBlock;
    var pre := doc + Separator(doc) + ["refs:"];
    AppendedIsUnmarked(doc);
    AppendedIsOneLine(doc);
    h := Halves(pre, [], NEW_INDENT, "");
    NothingAfter(Applied(doc, apiKey));
    NothingAfter(pre);
    HeaderAppended(doc);
    Locate(pre, [], []);
    assert pre[..|pre| - 1] + pre[|pre|..] == doc + Separator(doc);
  }

  /** Reading the written document back loses at most an empty last line, and never one
      of the block's. */
  lemma MarkedReadsBack(h: Halves, apiKey: string)
    requires Sound(h) && OneLine(apiKey)
    ensures ReadLines(WriteLines(Marked(h, apiKey))) == Marked(Filed(h), apiKey)
  {
    var m := ManagedBlock(h.indent, apiKey, h.saved);
    BlockIsOneLine(h.indent, apiKey, h.saved);
    JoinedDocsAreOneLine(h.a, m, h.c);
    BlockEndsInText(h.a, h.indent, apiKey, h.saved);
    hide ManagedBlock, WriteLines, ReadLines;
    BlockIsLong(h, apiKey);
    LastLineOff(Marked(h, apiKey));
    var lines := Marked(h, apiKey);
    ReadBack(lines[..|lines| - 1], lines[|lines| - 1]);
    LastOfThree(h.a + m, h.c);
  }

  lemma BlockIsLong(h: Halves, apiKey: string)
    requires Sound(h)
    ensures |Marked(h, apiKey)| >= 3
  {
    BlockIsInside(h.indent, apiKey, h.saved);
  }

  lemma LastOfThree(a: Doc, c: Doc)
    requires a != [] && a[|a| - 1] != ""
    ensures WithoutEmptyLast(a + c) == a + WithoutEmptyLast(c)
  {
    if c == [] {
      assert a + c == a;
    }
  }

  lemma FiledIsSound(h: Halves)
    requires Sound(h)
    ensures Sound(Filed(h))
  {
  }

  lemma MarkedComesOff(h: Halves, apiKey: string)
    requires Sound(h)
    ensures StripFrom(UNSTRIPPED, Marked(h, apiKey)) == Strip(false, true, h.indent, Back(h))
  {
    StripEdited(h.a, h.c, h.indent, apiKey, h.saved);
  }

  /** What removing leaves of an applied file, in terms of the two stretches. */
  lemma RemovedIsBack(h: Halves, apiKey: string)
    requires Sound(h) && OneLine(apiKey)
    ensures RemovedFile(WriteLines(Marked(h, apiKey))) == WriteLines(WithoutEmptyRefs(Back(Filed(h))))
  {
    hide ReadLines, WriteLines, Sound, StripFrom, Marked, Back, WithoutEmptyRefs;
    MarkedReadsBack(h, apiKey);
    FiledIsSound(h);
    MarkedComesOff(Filed(h), apiKey);
    BlockIsLong(Filed(h), apiKey);
  }

  lemma BackIsOneLine(h: Halves)
    requires Sound(h)
    ensures AllOneLine(Back(h)) && AllOneLine(WithoutEmptyRefs(Back(h)))
  {
    IndentIsOneLine(h.indent);
    JoinedDocsAreOneLine(h.a, Restored(h.indent, h.saved), h.c);
    hide Back, Sound;
    PartsAreOneLine(Back(h));
  }

  lemma PartsAreOneLine(lines: Doc)
    requires AllOneLine(lines)
    ensures AllOneLine(WithoutEmptyRefs(lines))
  {
  }

  // ---------------------------------------------------------------------- the round trip

  /** A document without a section: only the bytes at the end of the file matter, for
      the separator is taken for the final newline. */
  lemma AppendedFileRestored(file: string, apiKey: string)
    requires NoSentinel(ReadLines(file)) && RefsOf(ReadLines(file)).NoSection? && OneLine(apiKey)
    ensures RemovedFile(WriteLines(Applied(ReadLines(file), apiKey))) == file <==> ReversibleFile(file)
  {
    var doc := ReadLines(file);
    ReadIsOneLine(file);
    var h := AppendedHalves(doc, apiKey);
    RemovedIsBack(h, apiKey);
    assert Filed(h) == h;
    if doc == [] {
      FreshIsNotEmpty(file);
    } else if Separator(doc) == [] {
      NothingAfter(doc);
      WrittenIsFileExactlyWhen(file);
    } else {
      EmptyIsBlank();
      WrittenClosed(doc);
      FileIsItsLines(file);
    }
  }

  lemma FreshIsNotEmpty(file: string)
    requires ReadLines(file) == []
    ensures WriteLines([] + Separator([])) != file
  {
    var made: Doc := ["version: 1"];
    assert OneLine("version: 1");
    WrittenClosed(made);
    assert [] + Separator([]) == made + [""];
    ReadWritten(made);
  }

  /** A document with a section. */
  lemma SectionFileRestored(file: string, apiKey: string)
    requires NoSentinel(ReadLines(file)) && RefsOf(ReadLines(file)).Section? && OneLine(apiKey)
    ensures RemovedFile(WriteLines(Applied(ReadLines(file), apiKey))) == file <==> ReversibleFile(file)
  {
    var doc := ReadLines(file);
    var sec := RefsOf(doc);
    ReadIsOneLine(file);
    var h := SectionHalves(doc, apiKey);
    RemovedIsBack(h, apiKey);
    ReturnedIsNotLonger(doc, h);
    FiledIsSound(h);
    BackIsOneLine(Filed(h));
    var left := WithoutEmptyRefs(Back(Filed(h)));
    WrittenIsNeverLonger(left);
    WrittenIsFileExactlyWhen(file);
    hide Back, Sound, ReadLines, WriteLines, WithoutEmptyRefs, Untouched, RefsOf;
    if EndsEmpty(h.c) {
      BackShrinks(h);
      DropNeverGrows(Back(Filed(h)));
    } else {
      assert Filed(h) == h;
      DropNeverGrows(Back(h));
      LineRoundTrip(doc, apiKey, h);
    }
  }

  lemma DropNeverGrows(lines: Doc)
    ensures |WithoutEmptyRefs(lines)| <= |lines|
  {
  }

  lemma ReturnedIsNotLonger(doc: Doc, h: Halves)
    requires NoSentinel(doc) && RefsOf(doc).Section?
    requires var sec := RefsOf(doc);
             Back(h) == doc[..sec.start] + Returned(doc[sec.start..sec.end], sec.indent) + doc[sec.end..]
    ensures |Back(h)| <= |doc| && doc != []
    ensures var sec := RefsOf(doc); Back(h) == doc <==> Untouched(doc[sec.start..sec.end], sec.indent)
  {
    hide IsSentinel, Returned, Untouched, Back;
    var sec := RefsOf(doc);
    UnmarkedParts(doc, sec.start, sec.end);
    ReturnedUnchangedExactlyWhen(doc[sec.start..sec.end], sec.indent);
    SpliceSame(doc, sec.start, sec.end, Returned(doc[sec.start..sec.end], sec.indent));
  }

  /** A last line lost in between is missing afterwards. */
  lemma BackShrinks(h: Halves)
    requires EndsEmpty(h.c)
    ensures |Back(Filed(h))| < |Back(h)| && EndsEmpty(Back(h))
  {
    var a := h.a + Restored(h.indent, h.saved);
    assert (a + h.c)[|a + h.c| - 1] == h.c[|h.c| - 1];
  }

  /** On lines, the round trip holds exactly when the section is untouched. */
  lemma LineRoundTrip(doc: Doc, apiKey: string, h: Halves)
    requires NoSentinel(doc) && RefsOf(doc).Section?
    requires var sec := RefsOf(doc);
             Back(h) == doc[..sec.start] + Returned(doc[sec.start..sec.end], sec.indent) + doc[sec.end..]
    ensures var sec := RefsOf(doc);
            WithoutEmptyRefs(Back(h)) == doc <==>
            sec.start < sec.end && Untouched(doc[sec.start..sec.end], sec.indent)
  {
    hide Returned, Untouched, Back, NoSentinel;
    RemovedIsReturned(doc, apiKey);
    RestoredExactlyWhenReversible(doc, apiKey);
  }

  /** Applying and then removing leaves the file byte for byte as it was exactly when it
      is reversible, for a file without sentinels and a key on one line. */
  lemma FileRestoredExactlyWhen(file: string, apiKey: string)
    requires AppliedFile(file, apiKey).Stored? && OneLine(TrimSpace(apiKey)) && NoSentinel(ReadLines(file))
    ensures RemovedFile(AppliedFile(file, apiKey).content) == file <==> ReversibleFile(file)
  {
    hide ReversibleFile, RemovedFile, NoSentinel;
    if RefsOf(ReadLines(file)).NoSection? {
      AppendedFileRestored(file, TrimSpace(apiKey));
    } else {
      SectionFileRestored(file, TrimSpace(apiKey));
    }
  }

  /** Removing from a file without sentinels leaves it alone, whatever its bytes. */
  lemma UntouchedFileIsLeft(file: string)
    requires NoSentinel(ReadLines(file))
    ensures RemovedFile(file) == file
  {
    StripUnmarked(UNSTRIPPED, ReadLines(file));
  }
}
