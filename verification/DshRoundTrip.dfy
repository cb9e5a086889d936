/** Removing the block again: what the user gets back. */
module DshRoundTrip {
  import opened Options
  import opened TextLines
  import opened DshDocument
  import opened DshScan
  import opened DshLaws

  /** A parked line comes back as it was: indented like the section, nothing after it. */
  predicate ComesBack(indent: string, ln: Line) { ln == indent + TrimSpace(ln) }

  predicate Untouched(body: Doc, indent: string) {
    RefCount(body) <= 1 && forall i :: 0 <= i < |body| && IsRefLine(body[i]) ==> ComesBack(indent, body[i])
  }

  /** A document that applying and removing leaves as it was: a non-empty section
      with at most one key entry, which comes back; or no section, and a blank line
      at the end. */
  predicate Reversible(lines: Doc) {
    match RefsOf(lines)
    case NoSection => lines != [] && Blank(lines[|lines| - 1])
    case Section(indent, start, end) =>
      start < end && Untouched(lines[start..end], indent)
  }

  lemma {:induction false} RefsJoin(a: Doc, b: Doc)
    ensures RefCount(a + b) == RefCount(a) + RefCount(b) && NonRefs(a + b) == NonRefs(a) + NonRefs(b)
    ensures LastRefText(a + b) == if RefCount(b) > 0 then LastRefText(b) else LastRefText(a)
  {
    hide IsRefLine, TrimSpace;
    if b == [] {
      assert a + b == a && NonRefs(a) + [] == NonRefs(a);
    } else {
      RefsJoin(a, b[..|b| - 1]);
      assert (a + b)[..|a + b| - 1] == a + b[..|b| - 1];
    }
  }

  lemma {:induction false} NoRefs(body: Doc)
    requires RefCount(body) == 0
    ensures NonRefs(body) == body && forall i :: 0 <= i < |body| ==> !IsRefLine(body[i])
  {
    if body == [] {
    } else {
      NoRefs(body[..|body| - 1]);
      assert body == body[..|body| - 1] + [body[|body| - 1]];
    }
  }

  lemma SplitAt<T>(s: seq<T>, at: nat)
    requires at < |s|
    ensures s == s[..at] + [s[at]] + s[at + 1..]
  {
  }

  lemma RefBetween(x: Doc, ref: Line, y: Doc)
    requires RefCount(x) == 0 && IsRefLine(ref) && RefCount(x + [ref] + y) == 1
    ensures NonRefs(x + [ref] + y) == x + y && LastRefText(x + [ref] + y) == TrimSpace(ref) && RefCount(y) == 0
  {
    RefsJoin(x + [ref], y);
    RefsJoin(x, [ref]);
    LoneRef(ref);
    NoRefs(x);
    NoRefs(y);
    assert x + [] == x;
  }

  lemma LoneRef(ref: Line)
    requires IsRefLine(ref)
    ensures RefCount([ref]) == 1 && NonRefs([ref]) == [] && LastRefText([ref]) == TrimSpace(ref)
  {
    assert [ref][..0] == [];
  }

  /** With one key entry, the other lines are exactly the rest. */
  lemma OneRef(body: Doc, at: nat)
    requires RefCount(body) == 1 && at == FirstRef(body) < |body| && RefCount(body[..at]) == 0 && IsRefLine(body[at])
    ensures NonRefs(body) == body[..at] + body[at + 1..] && LastRefText(body) == TrimSpace(body[at])
    ensures RefCount(body[at + 1..]) == 0
  {
    SplitAt(body, at);
    RefBetween(body[..at], body[at], body[at + 1..]);
  }

  lemma OnlyRef(body: Doc, at: nat, i: nat)
    requires at < |body| && RefCount(body[..at]) == 0 && RefCount(body[at + 1..]) == 0
    requires i < |body| && IsRefLine(body[i])
    ensures i == at
  {
    NoRefs(body[..at]);
    NoRefs(body[at + 1..]);
  }

  lemma {:induction false} NoneAhead(body: Doc, at: nat)
    requires at <= |body| && forall i :: 0 <= i < at ==> !IsRefLine(body[i])
    ensures RefCount(body[..at]) == 0
  {
    if at > 0 {
      NoneAhead(body, at - 1);
      assert body[..at][..at - 1] == body[..at - 1];
    }
  }

  /** The body as removing gives it back. */
  function Returned(body: Doc, indent: string): Doc {
    Kept(body)[..Place(body)] + Restored(indent, Parked(body)) + Kept(body)[Place(body)..]
  }

  lemma {:induction false} RefTextIsSome(body: Doc)
    ensures RefCount(body) == 0 <==> LastRefText(body) == ""
  {
    if body == [] {
    } else {
      var n := |body| - 1;
      RefTextIsSome(body[..n]);
      if IsRefLine(body[n]) {
        RefTextIsParkable(body[n]);
      }
    }
  }

  lemma ReturnedUnchangedExactlyWhen(body: Doc, indent: string)
    requires NoSentinel(body)
    ensures |Returned(body, indent)| <= |body|
    ensures Returned(body, indent) == body <==> Untouched(body, indent)
  {
    ScanUnmarked(body);
    FirstRefIs(body);
    KeptUpToFirstRef(body);
    RefTextIsSome(body);
    var at := Place(body);
    if RefCount(body) == 1 {
      NoneAhead(body, at);
      OneRef(body, at);
      forall i | 0 <= i < |body| && IsRefLine(body[i])
        ensures i == at
      {
        OnlyRef(body, at, i);
      }
      assert Returned(body, indent) == body[..at] + [indent + TrimSpace(body[at])] + body[at + 1..];
      assert Returned(body, indent)[at] == indent + TrimSpace(body[at]);
    }
  }

  lemma UnmarkedParts(lines: Doc, i: nat, j: nat)
    requires NoSentinel(lines) && i <= j <= |lines|
    ensures NoSentinel(lines[..i]) && NoSentinel(lines[i..j]) && NoSentinel(lines[j..])
  {
  }

  /** Removing takes exactly the block out and puts the parked line in its place. */
  lemma RemovedIsReturned(lines: Doc, apiKey: string)
    requires NoSentinel(lines) && RefsOf(lines).Section?
    ensures var sec := RefsOf(lines);
            Removed(Applied(lines, apiKey)) ==
            lines[..sec.start] + Returned(lines[sec.start..sec.end], sec.indent) + lines[sec.end..]
  {
    var sec := RefsOf(lines);
    var pre, body, post := lines[..sec.start], lines[sec.start..sec.end], lines[sec.end..];
    var b1, b2 := Kept(body)[..Place(body)], Kept(body)[Place(body)..];
    UnmarkedParts(lines, sec.start, sec.end);
    Located(lines);
    IndentOfIsIndent(body);
    KeptArePlain(body);
    ParkedIsParkable(body);
    assert NoSentinel(pre + b1) && NoSentinel(b2 + post);
    StripEdited(pre + b1, b2 + post, sec.indent, apiKey, Parked(body));
    Rejoin(pre, b1, ManagedBlock(sec.indent, apiKey, Parked(body)), b2, post);
    Rejoin(pre, b1, Restored(sec.indent, Parked(body)), b2, post);
  }

  lemma Rejoin(pre: Doc, b1: Doc, m: Doc, b2: Doc, post: Doc)
    ensures pre + b1 + m + (b2 + post) == pre + (b1 + m + b2) + post
  {
  }

  lemma AppendedIsUnmarked(lines: Doc)
    requires NoSentinel(lines)
    ensures NoSentinel(lines + Separator(lines) + ["refs:"])
  {
    MarksDiffer();
    WordIsNoSentinel("refs:");
    WordIsNoSentinel("version: 1");
    assert TrimSpace("") == "";
  }

  lemma WordIsNoSentinel(ln: Line)
    requires ln != "" && !IsSpace(ln[0]) && ln[0] != '#'
    ensures !IsSentinel(ln)
  {
    MarksDiffer();
    TrimIndented("", ln);
    assert "" + ln == ln;
  }

  /** Removing from a document that had no section: the appended header is left. */
  lemma RemovedIsAppended(lines: Doc, apiKey: string)
    requires NoSentinel(lines) && RefsOf(lines).NoSection?
    ensures WithoutEmptyRefs(Removed(Applied(lines, apiKey))) == lines + Separator(lines)
  {
    var pre := lines + Separator(lines) + ["refs:"];
    AppendedIsUnmarked(lines);
    assert IsIndent(NEW_INDENT);
    StripEdited(pre, [], NEW_INDENT, apiKey, "");
    assert Applied(lines, apiKey) == pre + ManagedBlock(NEW_INDENT, apiKey, "") + [];
    assert pre + [] + [] == pre;
    HeaderAppended(lines);
    Locate(pre, [], []);
    assert pre[..|pre| - 1] + pre[|pre|..] == lines + Separator(lines);
  }

  lemma SpliceSame(lines: Doc, start: nat, end: nat, mid: Doc)
    requires start <= end <= |lines|
    ensures lines[..start] + mid + lines[end..] == lines <==> mid == lines[start..end]
    ensures |lines[..start] + mid + lines[end..]| == |lines| - (end - start) + |mid|
  {
    var out := lines[..start] + mid + lines[end..];
    if out == lines {
      assert mid == out[start..start + |mid|];
    }
  }

  lemma SectionRestored(lines: Doc, apiKey: string)
    requires NoSentinel(lines) && RefsOf(lines).Section?
    ensures WithoutEmptyRefs(Removed(Applied(lines, apiKey))) == lines <==> Reversible(lines)
  {
    hide NoSentinel, Removed, Applied, Returned, Untouched, IsRefLine, IndentOf;
    var sec := RefsOf(lines);
    var body := lines[sec.start..sec.end];
    RemovedIsReturned(lines, apiKey);
    UnmarkedParts(lines, sec.start, sec.end);
    ReturnedUnchangedExactlyWhen(body, sec.indent);
    SpliceSame(lines, sec.start, sec.end, Returned(body, sec.indent));
  }

  /** Applying and then removing gives a sentinel-free document back exactly when it
      is reversible. */
  lemma RestoredExactlyWhenReversible(lines: Doc, apiKey: string)
    requires NoSentinel(lines)
    ensures WithoutEmptyRefs(Removed(Applied(lines, apiKey))) == lines <==> Reversible(lines)
  {
    if RefsOf(lines).Section? {
      SectionRestored(lines, apiKey);
    } else {
      RemovedIsAppended(lines, apiKey);
      assert Separator(lines) == [] ==> lines + Separator(lines) == lines;
    }
  }

  lemma {:induction false} LastRefTextIs(body: Doc)
    ensures LastRefText(body) == "" || (Tight(LastRefText(body)) && LastRefText(body)[0] == REF[0])
  {
    if body == [] {
    } else {
      var n := |body| - 1;
      LastRefTextIs(body[..n]);
      if IsRefLine(body[n]) {
        RefTextIsParkable(body[n]);
      }
    }
  }

  lemma ReturnedIsUnmarked(body: Doc, indent: string)
    requires NoSentinel(body) && IsIndent(indent)
    ensures NoSentinel(Returned(body, indent))
  {
    var saved := Parked(body);
    KeptArePlain(body);
    ScanUnmarked(body);
    LastRefTextIs(body);
    assert NoSentinel(Restored(indent, saved)) by {
      if saved != "" {
        MarksDiffer();
        TrimIndented(indent, saved);
      }
    }
  }

  lemma JoinedIsUnmarked(a: Doc, b: Doc, c: Doc)
    requires NoSentinel(a) && NoSentinel(b) && NoSentinel(c)
    ensures NoSentinel(a + b + c)
  {
  }

  lemma RemovedIsUnmarked(lines: Doc, apiKey: string)
    requires NoSentinel(lines)
    ensures NoSentinel(WithoutEmptyRefs(Removed(Applied(lines, apiKey))))
  {
    hide NoSentinel;
    AppendedIsUnmarked(lines);
    if RefsOf(lines).NoSection? {
      RemovedIsAppended(lines, apiKey);
      UnmarkedParts(lines + Separator(lines) + ["refs:"], 0, |lines + Separator(lines)|);
      assert (lines + Separator(lines) + ["refs:"])[0..|lines + Separator(lines)|] == lines + Separator(lines);
    } else {
      var sec := RefsOf(lines);
      Located(lines);
      IndentOfIsIndent(lines[sec.start..sec.end]);
      UnmarkedParts(lines, sec.start, sec.end);
      RemovedIsReturned(lines, apiKey);
      ReturnedIsUnmarked(lines[sec.start..sec.end], sec.indent);
      var back := Removed(Applied(lines, apiKey));
      JoinedIsUnmarked(lines[..sec.start], Returned(lines[sec.start..sec.end], sec.indent), lines[sec.end..]);
      EmptyRefsGone(back);
    }
  }

  lemma EmptyRefsGone(lines: Doc)
    requires NoSentinel(lines)
    ensures NoSentinel(WithoutEmptyRefs(lines))
  {
  }

  /** Removing is idempotent: a second removal finds nothing of ours and changes
      nothing, as it does on a document that was never touched. */
  lemma SecondRemovalIsIdle(lines: Doc, apiKey: string)
    requires NoSentinel(lines)
    ensures StripFrom(UNSTRIPPED, lines) == UNSTRIPPED.(out := lines)
    ensures var once := WithoutEmptyRefs(Removed(Applied(lines, apiKey)));
            StripFrom(UNSTRIPPED, once) == UNSTRIPPED.(out := once)
  {
    var once := WithoutEmptyRefs(Removed(Applied(lines, apiKey)));
    RemovedIsUnmarked(lines, apiKey);
    StripUnmarked(UNSTRIPPED, lines);
    StripUnmarked(UNSTRIPPED, once);
    assert [] + lines == lines && [] + once == once;
  }

  // -------------------------------------------------------------- removing from any document

  /** One removal: a document without a begin sentinel is left as it is. */
  function RemovedOnce(lines: Doc): Doc {
    var s := StripFrom(UNSTRIPPED, lines);
    if s.changed then WithoutEmptyRefs(s.out) else lines
  }

  predicate IsBegin(ln: Line) { TrimSpace(ln) == BEGIN }

  /** Inside a block, a parked line that is itself a begin sentinel. */
  predicate ParksBegin(lines: Doc, i: nat)
    requires i < |lines|
  {
    var t := TrimSpace(lines[i]);
    StripFrom(UNSTRIPPED, lines[..i]).inManaged && t != BEGIN && t != END && HasPrefix(t, SAVED) &&
    IsBegin(t[|SAVED|..])
  }

  predicate ParksAnyBegin(lines: Doc) { exists i :: 0 <= i < |lines| && ParksBegin(lines, i) }

  predicate HasBegin(lines: Doc) { exists i :: 0 <= i < |lines| && IsBegin(lines[i]) }

  lemma {:induction false} TrimIgnoresIndent(indent: string, text: string)
    requires IsIndent(indent)
    ensures TrimSpace(indent + text) == TrimSpace(text)
  {
    if indent == "" {
      assert indent + text == text;
    } else {
      assert IsIndentChar(indent[0]);
      TrimIgnoresIndent(indent[1..], text);
      assert (indent + text)[1..] == indent[1..] + text;
    }
  }

  lemma HasBeginGrows(lines: Doc, ln: Line)
    ensures HasBegin(lines + [ln]) <==> HasBegin(lines) || IsBegin(ln)
  {
    hide IsBegin;
    var more := lines + [ln];
    assert more[|lines|] == ln;
    if i :| 0 <= i < |lines| && IsBegin(lines[i]) {
      assert more[i] == lines[i];
    }
  }

  lemma ParksAnyGrows(lines: Doc)
    requires lines != []
    ensures ParksAnyBegin(lines) <==> ParksAnyBegin(lines[..|lines| - 1]) || ParksBegin(lines, |lines| - 1)
  {
    var n := |lines| - 1;
    var init := lines[..n];
    forall i | 0 <= i < n
      ensures ParksBegin(lines, i) == ParksBegin(init, i)
    {
      assert init[..i] == lines[..i];
    }
  }

  /** What a strip leaves holds a begin sentinel exactly when one was parked. */
  lemma {:induction false} StripLeavesBeginExactlyWhen(lines: Doc)
    ensures var s := StripFrom(UNSTRIPPED, lines);
            IsIndent(s.indent) && (HasBegin(s.out) <==> ParksAnyBegin(lines)) && |s.out| <= |lines| &&
            (s.inManaged ==> s.changed) && (s.changed <==> HasBegin(lines)) && (s.changed ==> |s.out| < |lines|)
  {
    if lines == [] {
    } else {
      var n := |lines| - 1;
      var s := StripFrom(UNSTRIPPED, lines[..n]);
      StripLeavesBeginExactlyWhen(lines[..n]);
      ParksAnyGrows(lines);
      HasBeginGrows(lines[..n], lines[n]);
      assert lines == lines[..n] + [lines[n]];
      StripLineLeaves(s, lines[n]);
    }
  }

  /** One line's part in that. */
  lemma StripLineLeaves(s: Strip, ln: Line)
    requires IsIndent(s.indent)
    ensures var t, u := TrimSpace(ln), StripLine(s, ln);
            IsIndent(u.indent) && |u.out| <= |s.out| + 1 && (IsBegin(ln) ==> u.out == s.out) &&
            (HasBegin(u.out) <==>
             HasBegin(s.out) || (s.inManaged && t != BEGIN && t != END && HasPrefix(t, SAVED) && IsBegin(t[|SAVED|..])))
  {
    LeadingSpaceIsIndent(ln);
    var t := TrimSpace(ln);
    if s.inManaged && t != BEGIN && t != END && HasPrefix(t, SAVED) {
      TrimIgnoresIndent(s.indent, t[|SAVED|..]);
      HasBeginGrows(s.out, s.indent + t[|SAVED|..]);
    } else if !s.inManaged && t != BEGIN && t != END {
      HasBeginGrows(s.out, ln);
    }
  }

  lemma HasBeginJoins(a: Doc, b: Doc)
    ensures HasBegin(a + b) <==> HasBegin(a) || HasBegin(b)
  {
    hide IsBegin;
    var both := a + b;
    assert forall i :: 0 <= i < |a| ==> both[i] == a[i];
    assert forall i :: 0 <= i < |b| ==> both[|a| + i] == b[i];
    if i :| 0 <= i < |both| && IsBegin(both[i]) {
      assert i >= |a| ==> both[i] == b[i - |a|];
    }
  }

  lemma OneLineOut(lines: Doc, at: nat)
    requires at < |lines| && !IsBegin(lines[at])
    ensures HasBegin(lines[..at] + lines[at + 1..]) <==> HasBegin(lines)
  {
    hide IsBegin, HasBegin;
    HasBeginGrows(lines[..at], lines[at]);
    HasBeginJoins(lines[..at], lines[at + 1..]);
    HasBeginJoins(lines[..at] + [lines[at]], lines[at + 1..]);
    SplitAt(lines, at);
  }

  lemma DroppedHeaderIsNoBegin(lines: Doc)
    ensures HasBegin(WithoutEmptyRefs(lines)) <==> HasBegin(lines)
  {
    hide IsBegin, HasBegin, RefsOf;
    match RefsOf(lines)
    case NoSection =>
    case Section(_, start, end) =>
      HeaderIsNoBegin(lines);
      OneLineOut(lines, start - 1);
  }

  lemma HeaderIsNoBegin(lines: Doc)
    requires RefsOf(lines).Section?
    ensures !IsBegin(lines[RefsOf(lines).start - 1])
  {
    HeadIsKey(lines);
    var ln := lines[RefsOf(lines).start - 1];
    assert ln[0] == "refs:"[0];
    WordIsNoSentinel(ln);
  }

  /** For every document: removing twice is removing once exactly when no line parked in
      a block is itself a begin sentinel. */
  lemma SecondRemovalIdleExactlyWhen(lines: Doc)
    ensures RemovedOnce(RemovedOnce(lines)) == RemovedOnce(lines) <==> !ParksAnyBegin(lines)
  {
    hide StripFrom, HasBegin, ParksAnyBegin, RefsOf;
    StripLeavesBeginExactlyWhen(lines);
    var once := RemovedOnce(lines);
    StripLeavesBeginExactlyWhen(once);
    var s := StripFrom(UNSTRIPPED, lines);
    DroppedHeaderIsNoBegin(s.out);
    if !s.changed {
      NothingParkedWithoutBegin(lines);
    }
  }

  lemma NothingParkedWithoutBegin(lines: Doc)
    requires !StripFrom(UNSTRIPPED, lines).changed
    ensures !ParksAnyBegin(lines)
  {
    StripLeavesBeginExactlyWhen(lines);
    forall i | 0 <= i < |lines|
      ensures !ParksBegin(lines, i)
    {
      StripLeavesBeginExactlyWhen(lines[..i]);
      EarlierBegin(lines, i);
    }
  }

  lemma EarlierBegin(lines: Doc, i: nat)
    requires i <= |lines|
    ensures HasBegin(lines[..i]) ==> HasBegin(lines)
  {
    if j :| 0 <= j < i && IsBegin(lines[..i][j]) {
      assert IsBegin(lines[j]);
    }
  }

  // ------------------------------------------------------------------- quoting the key

  function Before(c: char, rest: Option<string>): Option<string> {
    if rest.Some? then Some([c] + rest.value) else None
  }

  /** The inside of a single-quoted YAML scalar: only a doubled quote stands for one. */
  function Undoubled(t: string): Option<string> {
    if t == "" then Some("")
    else if t[0] != '\'' then Before(t[0], Undoubled(t[1..]))
    else if |t| >= 2 && t[1] == '\'' then Before('\'', Undoubled(t[2..]))
    else None
  }

  lemma {:induction false} DoubledReadsBack(v: string)
    ensures Undoubled(DoubleQuotes(v)) == Some(v)
  {
    if v == "" {
    } else {
      DoubledReadsBack(v[1..]);
      var t := DoubleQuotes(v);
      assert v == [v[0]] + v[1..];
      if v[0] == '\'' {
        assert t[2..] == DoubleQuotes(v[1..]);
      } else {
        assert t[1..] == DoubleQuotes(v[1..]);
      }
    }
  }

  /** A key that needs quoting is written as one single-quoted scalar that reads back
      as the key; any other is written as it is. */
  lemma QuotedKeyReadsBack(v: string)
    ensures PlainScalar(v) ==> QuoteYaml(v) == v
    ensures !PlainScalar(v) ==>
              var q := QuoteYaml(v);
              |q| >= 2 && q[0] == '\'' && q[|q| - 1] == '\'' && Undoubled(q[1..|q| - 1]) == Some(v)
  {
    DoubledReadsBack(v);
    if !PlainScalar(v) {
      var q := QuoteYaml(v);
      assert q[1..|q| - 1] == DoubleQuotes(v);
    }
  }
}
