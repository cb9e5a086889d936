/** Text as a file holds it, and the lines it splits into. */
module TextFiles {
  import opened TextLines

  ghost predicate OneLine(s: string) { '\n' !in s }

  ghost predicate AllOneLine(lines: seq<Line>) { forall i :: 0 <= i < |lines| ==> OneLine(lines[i]) }

  /** The pieces between newlines; an empty text is one empty piece. */
  function Split(s: string): (lines: seq<Line>)
    ensures |lines| > 0
  {
    if s == "" then [""]
    else
      Pushed(Split(s[..|s| - 1]), s[|s| - 1])
  }

  /** One more character: a new line, or a longer last one. */
  function Pushed(lines: seq<Line>, c: char): (r: seq<Line>)
    requires |lines| > 0
    ensures |r| > 0
  {
    if c == '\n' then lines + [""] else lines[..|lines| - 1] + [lines[|lines| - 1] + [c]]
  }

  function Join(lines: seq<Line>): string {
    if lines == [] then ""
    else if |lines| == 1 then lines[0]
    else Joined(Join(lines[..|lines| - 1]), lines[|lines| - 1])
  }

  function TrimNewlines(s: string): string {
    if s != "" && s[|s| - 1] == '\n' then TrimNewlines(s[..|s| - 1]) else s
  }

  predicate IsAt(s: string, a: int, t: string) { 0 <= a <= |s| - |t| && s[a..a + |t|] == t }

  predicate Contains(s: string, t: string) { exists a :: 0 <= a <= |s| - |t| && IsAt(s, a, t) }

  lemma SplitPushed(s: string, c: char)
    ensures Split(s + [c]) == Pushed(Split(s), c)
  {
    assert (s + [c])[..|s|] == s;
  }

  lemma PushedAfter(a: seq<Line>, b: seq<Line>, c: char)
    requires |b| > 0
    ensures Pushed(a + b, c) == a + Pushed(b, c)
  {
  }

  /** One text, a newline, another text. */
  function Joined(a: string, b: string): string { a + "\n" + b }

  lemma JoinedPushed(a: string, b: string, c: char)
    ensures Joined(a, b + [c]) == Joined(a, b) + [c]
  {
  }

  lemma LastOff(s: string)
    requires s != ""
    ensures s == s[..|s| - 1] + [s[|s| - 1]]
  {
  }

  lemma {:induction false} SplitJoined(a: string, b: string)
    ensures Split(Joined(a, b)) == Split(a) + Split(b)
  {
    if b == "" {
      SplitPushed(a, '\n');
      assert Joined(a, b) == a + "\n";
    } else {
      var init, c := b[..|b| - 1], b[|b| - 1];
      LastOff(b);
      SplitJoined(a, init);
      JoinedPushed(a, init, c);
      SplitPushed(Joined(a, init), c);
      PushedAfter(Split(a), Split(init), c);
    }
  }

  lemma {:induction false} SplitOneLine(s: string)
    requires OneLine(s)
    ensures Split(s) == [s]
  {
    if s != "" {
      SplitOneLine(s[..|s| - 1]);
      assert s == s[..|s| - 1] + [s[|s| - 1]];
    }
  }

  lemma {:induction false} SplitOfJoin(lines: seq<Line>)
    requires lines != [] && AllOneLine(lines)
    ensures Split(Join(lines)) == lines
  {
    var n := |lines| - 1;
    SplitOneLine(lines[n]);
    if n > 0 {
      SplitOfJoin(lines[..n]);
      SplitJoined(Join(lines[..n]), lines[n]);
      assert lines == lines[..n] + [lines[n]];
    }
  }

  lemma JoinPushed(lines: seq<Line>, c: char)
    requires lines != []
    ensures Join(Pushed(lines, c)) == Join(lines) + [c]
  {
    var n := |lines| - 1;
    if c == '\n' {
      assert (lines + [""])[..n + 1] == lines;
    } else {
      assert Pushed(lines, c)[..n] == lines[..n];
    }
  }

  lemma {:induction false} JoinOfSplit(s: string)
    ensures Join(Split(s)) == s
  {
    if s != "" {
      var init, c := s[..|s| - 1], s[|s| - 1];
      LastOff(s);
      JoinOfSplit(init);
      SplitPushed(init, c);
      JoinPushed(Split(init), c);
    }
  }

  lemma {:induction false} SplitsAreOneLine(s: string)
    ensures AllOneLine(Split(s))
  {
    if s != "" {
      SplitsAreOneLine(s[..|s| - 1]);
    }
  }

  lemma AtThrough(s: string, a: int, t: string, b: int, u: string)
    requires IsAt(s, a, t) && IsAt(t, b, u)
    ensures IsAt(s, a + b, u)
  {
    var v := s[a + b..a + b + |u|];
    forall i | 0 <= i < |u|
      ensures v[i] == u[i]
    {
      assert t[b..b + |u|][i] == t[b + i] == s[a..a + |t|][b + i] == s[a + b + i];
    }
  }

  lemma ContainsThrough(s: string, t: string, u: string)
    requires Contains(s, t) && Contains(t, u)
    ensures Contains(s, u)
  {
    var a :| 0 <= a <= |s| - |t| && IsAt(s, a, t);
    var b :| 0 <= b <= |t| - |u| && IsAt(t, b, u);
    AtThrough(s, a, t, b, u);
  }

  lemma PartIsContained(a: string, t: string, b: string)
    ensures Contains(a + t + b, t)
  {
    assert IsAt(a + t + b, |a|, t);
  }

  lemma {:induction false} LineIsContained(s: string, i: nat)
    requires i < |Split(s)|
    ensures Contains(s, Split(s)[i])
  {
    var lines := Split(s);
    if s == "" {
      PartIsContained("", "", "");
    } else {
      var init, c := s[..|s| - 1], s[|s| - 1];
      PartIsContained("", init, [c]);
      assert s == "" + init + [c];
      if i < |lines| - 1 {
        LineIsContained(init, i);
        ContainsThrough(s, init, lines[i]);
      } else {
        LastLineEnds(s);
        PartIsContained(s[..|s| - |lines[i]|], lines[i], "");
      }
    }
  }

  lemma {:induction false} LastLineEnds(s: string)
    ensures var last := Split(s)[|Split(s)| - 1];
            |last| <= |s| && s == s[..|s| - |last|] + last + ""
  {
    if s != "" {
      LastLineEnds(s[..|s| - 1]);
      assert s == s[..|s| - 1] + [s[|s| - 1]];
    }
  }

  lemma {:induction false} TrimLeftIsContained(s: string)
    ensures Contains(s, TrimLeft(s))
  {
    PartIsContained("", s, "");
    assert "" + s + "" == s;
    if s != "" && IsSpace(s[0]) {
      TrimLeftIsContained(s[1..]);
      PartIsContained([s[0]], s[1..], "");
      assert [s[0]] + s[1..] + "" == s;
      ContainsThrough(s, s[1..], TrimLeft(s));
    }
  }

  lemma {:induction false} TrimRightIsContained(s: string)
    ensures Contains(s, TrimRight(s))
  {
    PartIsContained("", s, "");
    assert "" + s + "" == s;
    if s != "" && IsSpace(s[|s| - 1]) {
      var n := |s| - 1;
      TrimRightIsContained(s[..n]);
      PartIsContained("", s[..n], [s[n]]);
      assert "" + s[..n] + [s[n]] == s;
      ContainsThrough(s, s[..n], TrimRight(s));
    }
  }

  lemma TrimmedIsContained(s: string)
    ensures Contains(s, TrimSpace(s))
  {
    TrimLeftIsContained(s);
    TrimRightIsContained(TrimLeft(s));
    ContainsThrough(s, TrimLeft(s), TrimSpace(s));
  }

  /** Trailing newlines only add empty lines. */
  lemma {:induction false} TrimNewlinesSplit(s: string)
    ensures Split(TrimNewlines(s)) <= Split(s)
    ensures forall i :: |Split(TrimNewlines(s))| <= i < |Split(s)| ==> Split(s)[i] == ""
  {
    if s != "" && s[|s| - 1] == '\n' {
      TrimNewlinesSplit(s[..|s| - 1]);
    }
  }

  lemma {:induction false} TrimNewlinesEnds(s: string)
    ensures TrimNewlines(s) == "" || TrimNewlines(s)[|TrimNewlines(s)| - 1] != '\n'
    ensures TrimNewlines(TrimNewlines(s)) == TrimNewlines(s) && TrimNewlines(s + "\n") == TrimNewlines(s)
  {
    assert (s + "\n")[..|s|] == s;
    if s != "" && s[|s| - 1] == '\n' {
      TrimNewlinesEnds(s[..|s| - 1]);
    }
  }
}
