/** What applying and removing the managed block mean for the user's document. */
module DshLaws {
  import opened TextLines
  import opened DshDocument

  // ----------------------------------------------------------------- finding refs

  /** Lines that end a section: blank ones, then none or one at column 0. */
  ghost predicate Closes(post: Doc) { BodyLen(post) == 0 }

  /** The lines of a section: all inside it, the last one not blank. */
  ghost predicate IsBody(body: Doc) {
    && (forall i :: 0 <= i < |body| ==> Inside(body[i]))
    && (body == [] || !Blank(body[|body| - 1]))
  }

  /** Everything up to and including the first `refs:` header. */
  ghost predicate EndsInHeader(pre: Doc) { pre != [] && Head(pre) == |pre| - 1 }

  lemma {:induction false} HeadIsFirst(pre: Doc, rest: Doc)
    requires Head(pre) < |pre|
    ensures Head(pre + rest) == Head(pre)
  {
    if !IsRefsKey(pre[0]) {
      HeadIsFirst(pre[1..], rest);
      assert (pre + rest)[1..] == pre[1..] + rest;
    }
  }

  lemma {:induction false} HeadPrefix(lines: Doc)
    requires Head(lines) < |lines|
    ensures Head(lines[..Head(lines) + 1]) == Head(lines)
  {
    if !IsRefsKey(lines[0]) {
      HeadPrefix(lines[1..]);
      assert lines[..Head(lines) + 1][1..] == lines[1..][..Head(lines[1..]) + 1];
    }
  }

  lemma {:induction false} NoHeadThen(pre: Doc, rest: Doc)
    requires Head(pre) == |pre|
    ensures Head(pre + rest) == |pre| + Head(rest)
  {
    if pre == [] {
      assert pre + rest == rest;
    } else {
      NoHeadThen(pre[1..], rest);
      assert (pre + rest)[1..] == pre[1..] + rest;
    }
  }

  lemma {:induction false} InsideRuns(body: Doc, post: Doc)
    requires forall i :: 0 <= i < |body| ==> Inside(body[i])
    ensures InsideCount(body + post) == |body| + InsideCount(post)
  {
    if body == [] {
      assert body + post == post;
    } else {
      InsideRuns(body[1..], post);
      assert (body + post)[1..] == body[1..] + post;
    }
  }

  lemma {:induction false} CoreAfter(body: Doc, post: Doc, n: nat)
    requires n <= |post|
    ensures CoreLen(body + post, |body| + n) ==
            if CoreLen(post, n) > 0 then |body| + CoreLen(post, n) else CoreLen(body, |body|)
  {
    if n == 0 {
      CoreOfPrefix(body + post, |body|);
      assert (body + post)[..|body|] == body;
    } else if Blank(post[n - 1]) {
      CoreAfter(body, post, n - 1);
    }
  }

  lemma {:induction false} CoreOfPrefix(lines: Doc, n: nat)
    requires n <= |lines|
    ensures CoreLen(lines, n) == CoreLen(lines[..n], n)
    decreases n
  {
    if n > 0 && Blank(lines[n - 1]) {
      CoreOfPrefix(lines, n - 1);
      CoreOfPrefix(lines[..n], n - 1);
      assert lines[..n][..n - 1] == lines[..n - 1];
    }
  }

  lemma BodyEndsThere(body: Doc, post: Doc)
    requires IsBody(body) && Closes(post)
    ensures BodyLen(body + post) == |body|
  {
    InsideRuns(body, post);
    CoreAfter(body, post, InsideCount(post));
  }

  /** A section so laid out is the one that is found. */
  lemma Locate(pre: Doc, body: Doc, post: Doc)
    requires EndsInHeader(pre) && IsBody(body) && Closes(post)
    ensures RefsOf(pre + body + post) == Section(IndentOf(body), |pre|, |pre| + |body|)
  {
    var lines, tail := pre + body + post, body + post;
    assert lines == pre + tail;
    HeadIsFirst(pre, tail);
    assert lines[|pre|..] == tail && tail[..|body|] == body;
    BodyEndsThere(body, post);
  }

  lemma {:induction false} InsideUpTo(tail: Doc, i: nat)
    requires i < InsideCount(tail)
    ensures Inside(tail[i])
  {
    if i > 0 {
      InsideUpTo(tail[1..], i - 1);
    }
  }

  lemma {:induction false} CoreStops(tail: Doc, n: nat)
    requires n <= |tail|
    ensures CoreLen(tail, n) == 0 || !Blank(tail[CoreLen(tail, n) - 1])
    ensures forall i :: CoreLen(tail, n) <= i < n ==> Blank(tail[i])
  {
    if n > 0 && Blank(tail[n - 1]) {
      CoreStops(tail, n - 1);
    }
  }

  lemma {:induction false} AllBlankHasNoCore(lines: Doc, n: nat)
    requires n <= |lines| && forall i :: 0 <= i < n ==> Blank(lines[i])
    ensures CoreLen(lines, n) == 0
  {
    if n > 0 {
      AllBlankHasNoCore(lines, n - 1);
    }
  }

  lemma {:induction false} BlanksClose(blanks: Doc, post: Doc)
    requires (forall i :: 0 <= i < |blanks| ==> Blank(blanks[i])) && Closes(post)
    ensures Closes(blanks + post)
  {
    InsideRuns(blanks, post);
    CoreAfter(blanks, post, InsideCount(post));
    AllBlankHasNoCore(blanks, |blanks|);
  }

  lemma TailSplits(tail: Doc)
    ensures IsBody(tail[..BodyLen(tail)]) && Closes(tail[BodyLen(tail)..])
  {
    var n, len := InsideCount(tail), BodyLen(tail);
    CoreStops(tail, n);
    var body, post := tail[..len], tail[len..];
    assert tail == body + post;
    forall i | 0 <= i < |body|
      ensures Inside(body[i])
    {
      InsideUpTo(tail, i);
    }
    InsideRuns(body, post);
    AllBlankHasNoCore(post, n - len);
  }

  /** The section that is found is so laid out. */
  lemma Located(lines: Doc)
    requires RefsOf(lines).Section?
    ensures var sec := RefsOf(lines);
            EndsInHeader(lines[..sec.start]) && IsBody(lines[sec.start..sec.end]) && Closes(lines[sec.end..]) &&
            sec.indent == IndentOf(lines[sec.start..sec.end])
  {
    var sec := RefsOf(lines);
    HeadPrefix(lines);
    var tail := lines[sec.start..];
    TailSplits(tail);
    assert lines[sec.start..sec.end] == tail[..BodyLen(tail)] && lines[sec.end..] == tail[BodyLen(tail)..];
  }

  lemma SeparatorHasNoHeader(lines: Doc)
    ensures Head(Separator(lines)) == |Separator(lines)|
  {
    var s := Separator(lines);
    assert "version: 1"[0] != "refs:"[0];
    forall i | 0 <= i < |s|
      ensures !IsRefsKey(s[i])
    {
      assert s[i] == "" || s[i][0] != "refs:"[0];
    }
    if |s| > 0 {
      assert Head(s[1..]) == |s| - 1;
    }
  }

  /** Appending the header makes it the first one. */
  lemma HeaderAppended(lines: Doc)
    requires RefsOf(lines).NoSection?
    ensures EndsInHeader(lines + Separator(lines) + ["refs:"]) && Closes([])
  {
    SeparatorHasNoHeader(lines);
    NoHeadThen(Separator(lines), ["refs:"]);
    NoHeadThen(lines, Separator(lines) + ["refs:"]);
    assert lines + Separator(lines) + ["refs:"] == lines + (Separator(lines) + ["refs:"]);
    assert "refs:"[5..] == "" && IsRefsKey("refs:");
  }

  lemma {:induction false} LeadIsIndent(body: Doc)
    ensures IsIndent(FirstLead(body))
  {
    if body == [] {
    } else if Blank(body[0]) {
      LeadIsIndent(body[1..]);
    } else {
      LeadingSpaceIsIndent(body[0]);
    }
  }

  lemma IndentOfIsIndent(body: Doc)
    ensures IsIndent(IndentOf(body)) && IndentOf(body) != ""
  {
    LeadIsIndent(body);
  }

  lemma {:induction false} HeadIsKey(doc: Doc)
    requires Head(doc) < |doc|
    ensures IsRefsKey(doc[Head(doc)])
  {
    if !IsRefsKey(doc[0]) {
      HeadIsKey(doc[1..]);
    }
  }
}
