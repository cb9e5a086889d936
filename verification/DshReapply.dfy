/** Applying a key over a document that may already carry one. */
module DshReapply {
  import opened TextLines
  import opened DshDocument
  import opened DshScan
  import opened DshLaws

  /** The kept lines ahead of the block are indented as the section's first line is. */
  ghost predicate KeepsIndent(lines: Doc) {
    match RefsOf(lines)
    case NoSection => true
    case Section(indent, start, end) =>
      var lead := FirstLead(Kept(lines[start..end])[..Place(lines[start..end])]);
      lead == "" || lead == indent
  }

  lemma {:induction false} LeadOfJoined(a: Doc, b: Doc)
    requires forall i :: 0 <= i < |a| ==> Inside(a[i])
    ensures FirstLead(a + b) == if FirstLead(a) != "" then FirstLead(a) else FirstLead(b)
  {
    if a == [] {
      assert a + b == b;
    } else {
      assert (a + b)[1..] == a[1..] + b;
      if Blank(a[0]) {
        LeadOfJoined(a[1..], b);
      } else {
        assert Inside(a[0]);
      }
    }
  }

  lemma IndentedLineIsInside(indent: string, text: string)
    requires IsIndent(indent) && indent != "" && text != "" && !IsSpace(text[0])
    ensures Inside(indent + text) && !Blank(indent + text) && LeadingSpace(indent + text) == indent
  {
    TrimIndented(indent, text);
    IndentIsLeading(indent, text);
  }

  /** Every line of the block belongs to the section and carries its indent. */
  lemma BlockIsInside(indent: string, apiKey: string, saved: string)
    requires IsIndent(indent) && indent != ""
    ensures var m := ManagedBlock(indent, apiKey, saved);
            (forall i :: 0 <= i < |m| ==> Inside(m[i]) && !Blank(m[i])) && FirstLead(m) == indent && |m| >= 3
  {
    MarksDiffer();
    var key := REF + ": " + QuoteYaml(apiKey);
    IndentedLineIsInside(indent, BEGIN);
    IndentedLineIsInside(indent, END);
    assert key[0] == REF[0];
    IndentedLineIsInside(indent, key);
    if saved != "" {
      assert (SAVED + saved)[0] == SAVED[0];
      IndentedLineIsInside(indent, SAVED + saved);
    }
  }

  /** A section's body holding the block: kept lines, the block, kept lines. */
  function Around(b1: Doc, indent: string, apiKey: string, saved: string, b2: Doc): Doc {
    b1 + ManagedBlock(indent, apiKey, saved) + b2
  }

  /** The parts of a document that applying leaves around its block: the lines up to
      the header, the kept lines of the section, and the rest. */
  datatype Parts = Parts(pre: Doc, b1: Doc, c2: Doc, rest: Doc, indent: string, saved: string)

  ghost predicate WellFormed(p: Parts) {
    && EndsInHeader(p.pre) && Closes(p.rest)
    && AllPlain(p.b1) && AllPlain(p.c2)
    && (forall i :: 0 <= i < |p.b1| ==> Inside(p.b1[i]))
    && (forall i :: 0 <= i < |p.c2| ==> Inside(p.c2[i]))
    && (p.c2 == [] || !Blank(p.c2[|p.c2| - 1]))
    && IsIndent(p.indent) && p.indent != "" && (p.saved == "" || Parkable(p.saved))
  }

  /** The document with the block for a key among its parts. */
  function With(p: Parts, apiKey: string): Doc { p.pre + Around(p.b1, p.indent, apiKey, p.saved, p.c2) + p.rest }

  /** The parts as the next application finds them: indented as their first kept line. */
  function Found(p: Parts): Parts {
    if FirstLead(p.b1) != "" then p.(indent := FirstLead(p.b1)) else p
  }

  lemma AroundIsBody(p: Parts, apiKey: string)
    requires WellFormed(p)
    ensures var body := Around(p.b1, p.indent, apiKey, p.saved, p.c2);
            IsBody(body) && IndentOf(body) == Found(p).indent
  {
    hide Blank, Inside, LeadingSpace, ManagedBlock, AllPlain, Parkable, Closes, EndsInHeader;
    var m := ManagedBlock(p.indent, apiKey, p.saved);
    BlockIsInside(p.indent, apiKey, p.saved);
    LeadOfJoined(p.b1, m + p.c2);
    LeadOfJoined(m, p.c2);
    assert p.b1 + m + p.c2 == p.b1 + (m + p.c2);
  }

  /** A document with the block in its section, edited again. */
  lemma EditAgain(p: Parts, k1: string, k2: string)
    requires WellFormed(p)
    ensures Applied(With(p, k1), k2) == With(Found(p), k2)
  {
    hide IsSentinel, IsRefLine, Blank, LeadingSpace, ManagedBlock;
    var body := Around(p.b1, p.indent, k1, p.saved, p.c2);
    AroundIsBody(p, k1);
    Locate(p.pre, body, p.rest);
    ScanEdited(p.b1, p.c2, p.indent, k1, p.saved);
    var lines, n := With(p, k1), |p.pre|;
    assert lines[..n] == p.pre && lines[n..n + |body|] == body && lines[n + |body|..] == p.rest;
    assert (p.b1 + p.c2)[..|p.b1|] == p.b1 && (p.b1 + p.c2)[|p.b1|..] == p.c2;
  }

  lemma FoundIsWellFormed(p: Parts)
    requires WellFormed(p)
    ensures WellFormed(Found(p)) && Found(Found(p)) == Found(p)
  {
    LeadIsIndent(p.b1);
  }

  /** Applying with any key gives the same parts. */
  ghost predicate Splits(lines: Doc, p: Parts) {
    WellFormed(p) && (forall k :: Applied(lines, k) == With(p, k)) && (KeepsIndent(lines) <==> Found(p) == p)
  }

  lemma Regroup(pre: Doc, b: Doc, c: Doc, t: Doc, post: Doc)
    ensures pre + (b + (c + t)) + post == pre + (b + c) + (t + post)
  {
  }

  lemma SectionParts(lines: Doc) returns (p: Parts)
    requires RefsOf(lines).Section?
    ensures Splits(lines, p)
  {
    hide IsBody, Closes, AllPlain, CoreLen, FirstLead, IndentOf, Kept, Parked, Place, Parkable, IsIndent, ManagedBlock;
    var sec := RefsOf(lines);
    Located(lines);
    var body, post := lines[sec.start..sec.end], lines[sec.end..];
    var b2 := Kept(body)[Place(body)..];
    var m := CoreLen(b2, |b2|);
    p := Parts(lines[..sec.start], Kept(body)[..Place(body)], b2[..m], b2[m..] + post, sec.indent, Parked(body));
    KeptSplit(body, Place(body), m);
    CoreStops(b2, |b2|);
    BlanksClose(b2[m..], post);
    ParkedIsParkable(body);
    IndentOfIsIndent(body);
    assert b2 == b2[..m] + b2[m..];
    forall k
      ensures Applied(lines, k) == With(p, k)
    {
      Regroup(p.pre, p.b1 + ManagedBlock(p.indent, k, p.saved), p.c2, b2[m..], post);
    }
  }

  lemma KeptSplit(body: Doc, at: nat, m: nat)
    requires IsBody(body) && at + m <= |Kept(body)|
    ensures var b1, c2 := Kept(body)[..at], Kept(body)[at..][..m];
            AllPlain(b1) && AllPlain(c2) && (forall i :: 0 <= i < |b1| ==> Inside(b1[i])) &&
            (forall i :: 0 <= i < |c2| ==> Inside(c2[i]))
  {
    KeptArePlain(body);
    KeptAreInside(body);
  }

  lemma KeptAreInside(body: Doc)
    requires IsBody(body)
    ensures forall i :: 0 <= i < |Kept(body)| ==> Inside(Kept(body)[i])
  {
    KeptArePlain(body);
    forall i | 0 <= i < |Kept(body)|
      ensures Inside(Kept(body)[i])
    {
      assert Kept(body)[i] in body;
    }
  }

  lemma IndentsShow(p: Parts, q: Parts, k: string)
    requires q == p.(indent := q.indent)
    ensures With(p, k) == With(q, k) <==> p == q
  {
    var at := |p.pre| + |p.b1|;
    assert With(p, k)[at] == p.indent + BEGIN && With(q, k)[at] == q.indent + BEGIN;
    if With(p, k) == With(q, k) {
      assert |p.indent| == |q.indent|;
      assert p.indent == (p.indent + BEGIN)[..|p.indent|] == (q.indent + BEGIN)[..|q.indent|] == q.indent;
    }
  }

  /** A document without a section gets one appended, and it is found there. */
  lemma AppendedParts(lines: Doc) returns (p: Parts)
    requires RefsOf(lines).NoSection?
    ensures Splits(lines, p)
  {
    p := Parts(lines + Separator(lines) + ["refs:"], [], [], [], NEW_INDENT, "");
    HeaderAppended(lines);
    forall k
      ensures Applied(lines, k) == With(p, k)
    {
      assert Around([], NEW_INDENT, k, "", []) == ManagedBlock(NEW_INDENT, k, "");
    }
  }

  lemma PartsOf(lines: Doc) returns (p: Parts)
    ensures Splits(lines, p)
  {
    if RefsOf(lines).NoSection? {
      p := AppendedParts(lines);
    } else {
      p := SectionParts(lines);
    }
  }

  /** Applying k1 and then k2 is applying k2 alone exactly when the kept lines ahead
      of the block start at the section's own indent. */
  lemma ReapplyExactlyWhenIndentKept(lines: Doc, k1: string, k2: string)
    ensures Applied(Applied(lines, k1), k2) == Applied(lines, k2) <==> KeepsIndent(lines)
  {
    var p := PartsOf(lines);
    EditAgain(p, k1, k2);
    IndentsShow(p, Found(p), k2);
  }

  /** From the second application on, it always holds. */
  lemma AppliedKeepsIndent(lines: Doc, k: string)
    ensures KeepsIndent(Applied(lines, k))
  {
    var p := PartsOf(lines);
    FoundIsWellFormed(p);
    EditAgain(p, k, k);
    EditAgain(Found(p), k, k);
    ReapplyExactlyWhenIndentKept(Applied(lines, k), k, k);
  }

  lemma KeptAheadArePrefix(body: Doc)
    requires NoSentinel(body)
    ensures Place(body) <= |body| && Kept(body)[..Place(body)] == body[..Place(body)]
  {
    ScanUnmarked(body);
    FirstRefIs(body);
    KeptUpToFirstRef(body);
  }

  lemma CleanLead(body: Doc)
    requires (forall i :: 0 <= i < |body| ==> Inside(body[i])) && NoSentinel(body)
    ensures var lead := FirstLead(Kept(body)[..Place(body)]); lead == "" || lead == IndentOf(body)
  {
    hide NoSentinel, Inside, Kept, Place;
    var at := Place(body);
    KeptAheadArePrefix(body);
    LeadOfJoined(body[..at], body[at..]);
    assert body == body[..at] + body[at..];
  }

  /** A document whose section holds no sentinel keeps its indent, so the last key
      applied is the only one that shows. */
  lemma LastKeyWins(lines: Doc, k1: string, k2: string)
    requires match RefsOf(lines) case NoSection => true case Section(_, start, end) => NoSentinel(lines[start..end])
    ensures Applied(Applied(lines, k1), k2) == Applied(lines, k2)
  {
    hide NoSentinel, RefsOf, IndentOf, Inside, Applied, Closes, EndsInHeader, Kept, Place, FirstLead;
    ReapplyExactlyWhenIndentKept(lines, k1, k2);
    match RefsOf(lines)
    case NoSection =>
    case Section(indent, start, end) =>
      Located(lines);
      CleanLead(lines[start..end]);
  }

  // ------------------------------------------------------------------ the key in force

  function KeyLine(indent: string, apiKey: string): Line { indent + (REF + ": " + QuoteYaml(apiKey)) }

  lemma {:induction false} SkipIndent(indent: string, text: string)
    requires IsIndent(indent) && text != "" && !IsRegexSpace(text[0])
    ensures SkipRegexSpace(indent + text) == text
  {
    if indent == "" {
      assert indent + text == text;
    } else {
      assert IsIndentChar(indent[0]);
      SkipIndent(indent[1..], text);
      assert (indent + text)[1..] == indent[1..] + text;
    }
  }

  lemma KeyLineIsEntry(indent: string, apiKey: string)
    requires IsIndent(indent) && indent != ""
    ensures IsRefLine(KeyLine(indent, apiKey))
  {
    MarksDiffer();
    var q := QuoteYaml(apiKey);
    var text := REF + ": " + q;
    assert text[0] == REF[0] && text[..|REF|] == REF && text[|REF|..] == ": " + q;
    SkipIndent(indent, text);
    assert SkipRegexSpace(": " + q) == ": " + q && (": " + q)[0] == ':';
  }

  lemma MarkIsNoEntry(indent: string, mark: string)
    requires IsIndent(indent) && mark != "" && mark[0] == '#'
    ensures !IsRefLine(indent + mark)
  {
    MarksDiffer();
    SkipIndent(indent, mark);
  }

  /** Of the block's lines only the one before its end is an entry. */
  lemma BlockHasOneEntry(indent: string, apiKey: string, saved: string)
    requires IsIndent(indent) && indent != ""
    ensures var m := ManagedBlock(indent, apiKey, saved);
            m[|m| - 2] == KeyLine(indent, apiKey) && forall i :: 0 <= i < |m| && IsRefLine(m[i]) ==> i == |m| - 2
  {
    MarksDiffer();
    MarkIsNoEntry(indent, BEGIN);
    MarkIsNoEntry(indent, END);
    assert (SAVED + saved)[0] == SAVED[0];
    MarkIsNoEntry(indent, SAVED + saved);
    hide IsRefLine;
    var m := ManagedBlock(indent, apiKey, saved);
    if saved == "" {
      assert m == [indent + BEGIN, KeyLine(indent, apiKey), indent + END];
    } else {
      assert m == [indent + BEGIN, indent + (SAVED + saved), KeyLine(indent, apiKey), indent + END];
    }
  }

  /** The line is an entry for the key, it stands at one place, and no other place
      holds an entry. */
  ghost predicate OnlyEntry(body: Doc, key: Line) {
    IsRefLine(key) && exists at :: OnlyEntryAt(body, key, at)
  }

  ghost predicate OnlyEntryAt(body: Doc, key: Line, at: int) {
    0 <= at < |body| && body[at] == key && forall i :: 0 <= i < |body| && IsRefLine(body[i]) ==> i == at
  }

  /** In a section holding the block, the only entry for the key is the block's own. */
  lemma OneEntryAround(p: Parts, apiKey: string)
    requires WellFormed(p)
    ensures var body := Around(p.b1, p.indent, apiKey, p.saved, p.c2);
            OnlyEntry(body, KeyLine(p.indent, apiKey))
  {
    hide IsRefLine, IsSentinel, ManagedBlock, Inside, Blank, KeyLine;
    var m := ManagedBlock(p.indent, apiKey, p.saved);
    BlockHasOneEntry(p.indent, apiKey, p.saved);
    BlockIsInside(p.indent, apiKey, p.saved);
    KeyLineIsEntry(p.indent, apiKey);
    OneEntryBetween(p.b1, m, p.c2, KeyLine(p.indent, apiKey));
  }

  lemma OneEntryBetween(a: Doc, m: Doc, c: Doc, key: Line)
    requires AllPlain(a) && AllPlain(c) && |m| >= 2 && m[|m| - 2] == key && IsRefLine(key)
    requires forall i :: 0 <= i < |m| && IsRefLine(m[i]) ==> i == |m| - 2
    ensures OnlyEntry(a + m + c, key)
  {
    hide IsRefLine, IsSentinel;
    var body, at := a + m + c, |a| + |m| - 2;
    assert body[at] == key;
    forall i | 0 <= i < |body| && IsRefLine(body[i])
      ensures i == at
    {
      assert i < |a| ==> Plain(a[i]);
      assert |a| <= i < |a| + |m| ==> body[i] == m[i - |a|];
      assert i >= |a| + |m| ==> Plain(c[i - |a| - |m|]);
    }
    assert OnlyEntryAt(body, key, at);
  }

  /** What applying is for: the document has a refs section with exactly one entry for
      the key, which carries the applied key, whatever entries were there before. */
  lemma AppliedKeyIsInForce(lines: Doc, apiKey: string)
    ensures var out := Applied(lines, apiKey);
            RefsOf(out).Section? &&
            var sec := RefsOf(out);
            exists indent :: IsIndent(indent) && indent != "" &&
                             OnlyEntry(out[sec.start..sec.end], KeyLine(indent, apiKey))
  {
    hide IsRefLine, Head, IsBody, Closes, EndsInHeader, IndentOf, Around, Applied, KeyLine, AllPlain, Inside, Parkable;
    var p := PartsOf(lines);
    var body, n := Around(p.b1, p.indent, apiKey, p.saved, p.c2), |p.pre|;
    AroundIsBody(p, apiKey);
    Locate(p.pre, body, p.rest);
    OneEntryAround(p, apiKey);
    assert With(p, apiKey)[n..n + |body|] == body;
  }
}
