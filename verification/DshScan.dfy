/** How the scans for applying and removing treat each part of a document. */
module DshScan {
  import opened TextLines
  import opened DshDocument

  /** A line both scans keep outside a managed block, and applying does not park. */
  ghost predicate Plain(ln: Line) { !IsSentinel(ln) && !IsRefLine(ln) }

  ghost predicate AllPlain(lines: Doc) { forall i :: 0 <= i < |lines| ==> Plain(lines[i]) }

  ghost predicate NoSentinel(lines: Doc) { forall i :: 0 <= i < |lines| ==> !IsSentinel(lines[i]) }

  /** A parked text survives being written after the mark and read back. */
  ghost predicate Parkable(saved: string) { saved != "" && !IsSpace(saved[|saved| - 1]) }

  lemma MarksDiffer()
    ensures Tight(BEGIN) && BEGIN[0] == '#' && BEGIN[2] == '>'
    ensures Tight(END) && END[0] == '#' && END[2] == '<'
    ensures |SAVED| > 2 && SAVED[0] == '#' && SAVED[2] == 'f' && SAVED[|SAVED| - 1] == ' '
    ensures REF != "" && REF[0] == 'D' && BEGIN != END
  {
    assert BEGIN[2] != END[2];
  }

  lemma ParkedLineReadsBack(indent: string, saved: string)
    requires IsIndent(indent) && Parkable(saved)
    ensures TrimSpace(indent + (SAVED + saved)) == SAVED + saved
    ensures SAVED + saved != BEGIN && SAVED + saved != END && (SAVED + saved)[|SAVED|..] == saved
  {
    MarksDiffer();
    var text := SAVED + saved;
    assert text[0] == SAVED[0] && text[2] == SAVED[2] && text[|text| - 1] == saved[|saved| - 1];
    TrimIndented(indent, text);
  }

  lemma KeyLineIsNoMark(indent: string, value: string)
    requires IsIndent(indent)
    ensures var t := TrimSpace(indent + (REF + ": " + value));
            t != BEGIN && t != END && !HasPrefix(t, SAVED) && t != ""
  {
    MarksDiffer();
    var text := REF + ": " + value;
    assert text[0] == REF[0];
    TrimIndented(indent, text);
  }

  lemma MarkLinesAreMarks(indent: string)
    requires IsIndent(indent)
    ensures TrimSpace(indent + BEGIN) == BEGIN && TrimSpace(indent + END) == END && BEGIN != END
    ensures LeadingSpace(indent + BEGIN) == indent
  {
    MarksDiffer();
    TrimIndented(indent, BEGIN);
    TrimIndented(indent, END);
    IndentIsLeading(indent, BEGIN);
  }

  // ------------------------------------------------------------------- applying's scan

  lemma {:induction false} ScanAppends(s: Scan, a: Doc, b: Doc)
    ensures ScanFrom(s, a + b) == ScanFrom(ScanFrom(s, a), b)
  {
    if b == [] {
      assert a + b == a;
    } else {
      ScanAppends(s, a, b[..|b| - 1]);
      assert (a + b)[..|a + b| - 1] == a + b[..|b| - 1];
    }
  }

  lemma ScanOne(s: Scan, ln: Line)
    ensures ScanFrom(s, [ln]) == ScanLine(s, ln)
  {
    assert [ln][..0] == [];
  }

  lemma {:induction false} ScanPlain(s: Scan, lines: Doc)
    requires !s.inManaged && AllPlain(lines)
    ensures ScanFrom(s, lines) == s.(body := s.body + lines)
  {
    if lines == [] {
      assert s.body + lines == s.body;
    } else {
      var n := |lines| - 1;
      ScanPlain(s, lines[..n]);
      assert Plain(lines[n]);
      assert s.body + lines == s.body + lines[..n] + [lines[n]];
    }
  }

  /** The whole block is passed over; only its place and its parked text are noted. */
  lemma ScanManaged(s: Scan, indent: string, apiKey: string, saved: string)
    requires !s.inManaged && IsIndent(indent) && (saved == "" || Parkable(saved))
    ensures ScanFrom(s, ManagedBlock(indent, apiKey, saved)) ==
            Scan(false, if saved == "" then s.saved else saved, Placed(s), s.body)
  {
    var key := indent + (REF + ": " + QuoteYaml(apiKey));
    MarkLinesAreMarks(indent);
    KeyLineIsNoMark(indent, QuoteYaml(apiKey));
    var s1 := Scan(true, s.saved, Placed(s), s.body);
    ScanOne(s, indent + BEGIN);
    var s2 := s1.(saved := if saved == "" then s.saved else saved);
    assert ScanFrom(s1, SavedLines(indent, saved)) == s2 by {
      if saved != "" {
        ParkedLineReadsBack(indent, saved);
        ScanOne(s1, indent + (SAVED + saved));
      }
    }
    ScanOne(s2, key);
    ScanOne(s2, indent + END);
    ScanAppends(s, [indent + BEGIN], SavedLines(indent, saved));
    ScanAppends(s, [indent + BEGIN] + SavedLines(indent, saved), [key]);
    ScanAppends(s, [indent + BEGIN] + SavedLines(indent, saved) + [key], [indent + END]);
  }

  lemma {:induction false} KeptArePlain(body: Doc)
    ensures AllPlain(Kept(body)) && forall ln :: ln in Kept(body) ==> ln in body
  {
    if body == [] {
    } else {
      var n := |body| - 1;
      KeptArePlain(body[..n]);
      assert body == body[..n] + [body[n]];
    }
  }

  lemma SavedTextIsParkable(ln: Line)
    requires HasPrefix(TrimSpace(ln), SAVED)
    ensures Parkable(TrimSpace(ln)[|SAVED|..])
  {
    MarksDiffer();
    TrimIsTight(ln);
    var t := TrimSpace(ln);
    assert t[|SAVED| - 1] == ' ';
  }

  lemma RefTextIsParkable(ln: Line)
    requires IsRefLine(ln)
    ensures Parkable(TrimSpace(ln)) && Tight(TrimSpace(ln)) && TrimSpace(ln)[0] == REF[0]
  {
    MarksDiffer();
    TrimIsTight(ln);
    SkippedSpaceIsSpace(ln);
    var text := SkipRegexSpace(ln);
    assert text[0] == REF[0];
    TrimRightKeepsHead(text);
  }

  lemma {:induction false} ParkedIsParkable(body: Doc)
    ensures Parked(body) == "" || Parkable(Parked(body))
  {
    if body == [] {
    } else {
      var n := |body| - 1;
      ParkedIsParkable(body[..n]);
      if HasPrefix(TrimSpace(body[n]), SAVED) {
        SavedTextIsParkable(body[n]);
      }
      if IsRefLine(body[n]) {
        RefTextIsParkable(body[n]);
      }
    }
  }

  // Scanning a body without sentinels.

  function RefCount(body: Doc): nat {
    if body == [] then 0 else RefCount(body[..|body| - 1]) + if IsRefLine(body[|body| - 1]) then 1 else 0
  }

  function NonRefs(body: Doc): Doc {
    if body == [] then []
    else NonRefs(body[..|body| - 1]) + if IsRefLine(body[|body| - 1]) then [] else [body[|body| - 1]]
  }

  function FirstRef(body: Doc): (i: nat)
    ensures i <= |body|
  {
    if body == [] then 0
    else
      var n := |body| - 1;
      if FirstRef(body[..n]) < n then FirstRef(body[..n]) else if IsRefLine(body[n]) then n else n + 1
  }

  function LastRefText(body: Doc): string {
    if body == [] then ""
    else if IsRefLine(body[|body| - 1]) then TrimSpace(body[|body| - 1])
    else LastRefText(body[..|body| - 1])
  }

  lemma UnmarkedLine(s: Scan, ln: Line)
    requires !s.inManaged && !IsSentinel(ln)
    ensures ScanLine(s, ln) == if IsRefLine(ln) then Scan(false, TrimSpace(ln), Placed(s), s.body)
                               else Scan(false, s.saved, s.at, s.body + [ln])
  {
  }

  lemma {:induction false} FirstRefIs(body: Doc)
    ensures FirstRef(body) < |body| ==> IsRefLine(body[FirstRef(body)])
    ensures forall i :: 0 <= i < FirstRef(body) ==> !IsRefLine(body[i])
    ensures FirstRef(body) < |body| <==> RefCount(body) > 0
  {
    if body == [] {
    } else {
      FirstRefIs(body[..|body| - 1]);
    }
  }

  lemma {:induction false} KeptUpToFirstRef(body: Doc)
    ensures FirstRef(body) <= |NonRefs(body)| == |body| - RefCount(body)
    ensures NonRefs(body)[..FirstRef(body)] == body[..FirstRef(body)]
  {
    if body == [] {
    } else {
      KeptUpToFirstRef(body[..|body| - 1]);
      FirstRefIs(body[..|body| - 1]);
    }
  }

  lemma {:induction false} ScanUnmarked(body: Doc)
    requires NoSentinel(body)
    ensures ScanFrom(UNSCANNED, body) ==
            Scan(false, LastRefText(body), if RefCount(body) == 0 then -1 else FirstRef(body), NonRefs(body))
  {
    if body == [] {
    } else {
      var n := |body| - 1;
      ScanUnmarked(body[..n]);
      assert !IsSentinel(body[n]);
      UnmarkedLine(ScanFrom(UNSCANNED, body[..n]), body[n]);
      FirstRefIs(body[..n]);
      KeptUpToFirstRef(body[..n]);
      assert NonRefs(body[..n]) + [] == NonRefs(body[..n]);
    }
  }

  /** Kept lines around a block are scanned back to the same lines and place. */
  lemma ScanEdited(b1: Doc, b2: Doc, indent: string, apiKey: string, saved: string)
    requires AllPlain(b1) && AllPlain(b2) && IsIndent(indent) && (saved == "" || Parkable(saved))
    ensures ScanFrom(UNSCANNED, b1 + ManagedBlock(indent, apiKey, saved) + b2) == Scan(false, saved, |b1|, b1 + b2)
  {
    var managed := ManagedBlock(indent, apiKey, saved);
    ScanPlain(UNSCANNED, b1);
    assert UNSCANNED.body + b1 == b1;
    ScanManaged(UNSCANNED.(body := b1), indent, apiKey, saved);
    ScanPlain(Scan(false, saved, |b1|, b1), b2);
    ScanAppends(UNSCANNED, b1, managed);
    ScanAppends(UNSCANNED, b1 + managed, b2);
  }

  // ------------------------------------------------------------------- removing's scan

  lemma {:induction false} StripAppends(s: Strip, a: Doc, b: Doc)
    ensures StripFrom(s, a + b) == StripFrom(StripFrom(s, a), b)
  {
    if b == [] {
      assert a + b == a;
    } else {
      StripAppends(s, a, b[..|b| - 1]);
      assert (a + b)[..|a + b| - 1] == a + b[..|b| - 1];
    }
  }

  lemma StripOne(s: Strip, ln: Line)
    ensures StripFrom(s, [ln]) == StripLine(s, ln)
  {
    assert [ln][..0] == [];
  }

  lemma {:induction false} StripUnmarked(s: Strip, lines: Doc)
    requires !s.inManaged && NoSentinel(lines)
    ensures StripFrom(s, lines) == s.(out := s.out + lines)
  {
    if lines == [] {
      assert s.out + lines == s.out;
    } else {
      var n := |lines| - 1;
      StripUnmarked(s, lines[..n]);
      assert !IsSentinel(lines[n]);
      assert s.out + lines == s.out + lines[..n] + [lines[n]];
    }
  }

  /** The line a parked text is restored to. */
  function Restored(indent: string, saved: string): Doc {
    if saved == "" then [] else [indent + saved]
  }

  lemma StripManaged(s: Strip, indent: string, apiKey: string, saved: string)
    requires !s.inManaged && IsIndent(indent) && (saved == "" || Parkable(saved))
    ensures StripFrom(s, ManagedBlock(indent, apiKey, saved)) ==
            Strip(false, true, indent, s.out + Restored(indent, saved))
  {
    var key := indent + (REF + ": " + QuoteYaml(apiKey));
    MarkLinesAreMarks(indent);
    KeyLineIsNoMark(indent, QuoteYaml(apiKey));
    var s1 := Strip(true, true, indent, s.out);
    StripOne(s, indent + BEGIN);
    var s2 := s1.(out := s.out + Restored(indent, saved));
    assert StripFrom(s1, SavedLines(indent, saved)) == s2 by {
      if saved == "" {
        assert s.out + [] == s.out;
      } else {
        ParkedLineReadsBack(indent, saved);
        StripOne(s1, indent + (SAVED + saved));
      }
    }
    StripOne(s2, key);
    StripOne(s2, indent + END);
    StripAppends(s, [indent + BEGIN], SavedLines(indent, saved));
    StripAppends(s, [indent + BEGIN] + SavedLines(indent, saved), [key]);
    StripAppends(s, [indent + BEGIN] + SavedLines(indent, saved) + [key], [indent + END]);
  }

  /** Removing gives the unmarked lines around a block back, and the parked line. */
  lemma StripEdited(a: Doc, b: Doc, indent: string, apiKey: string, saved: string)
    requires NoSentinel(a) && NoSentinel(b) && IsIndent(indent) && (saved == "" || Parkable(saved))
    ensures StripFrom(UNSTRIPPED, a + ManagedBlock(indent, apiKey, saved) + b) ==
            Strip(false, true, indent, a + Restored(indent, saved) + b)
  {
    var managed := ManagedBlock(indent, apiKey, saved);
    StripUnmarked(UNSTRIPPED, a);
    assert UNSTRIPPED.out + a == a;
    StripManaged(UNSTRIPPED.(out := a), indent, apiKey, saved);
    StripUnmarked(Strip(false, true, indent, a + Restored(indent, saved)), b);
    StripAppends(UNSTRIPPED, a, managed);
    StripAppends(UNSTRIPPED, a + managed, b);
  }
}
