/** The editor as it runs: line by line, with flags and output slices. */
module DshEditor {
  import opened TextLines
  import opened DshDocument
  import opened DshFile
  import opened DshLaws
  import opened DshRestore

  lemma HeadStep(lines: Doc, i: nat)
    requires i < |lines|
    ensures Head(lines[i..]) == if IsRefsKey(lines[i]) then 0 else 1 + Head(lines[i + 1..])
  {
    assert lines[i..][1..] == lines[i + 1..];
  }

  lemma InsideStep(lines: Doc, i: nat)
    requires i < |lines|
    ensures InsideCount(lines[i..]) == if Inside(lines[i]) then 1 + InsideCount(lines[i + 1..]) else 0
  {
    assert lines[i..][1..] == lines[i + 1..];
  }

  /** The first lead of a growing run of lines. */
  lemma {:induction false} LeadStep(body: Doc, ln: Line)
    requires forall i :: 0 <= i < |body| ==> Inside(body[i])
    ensures FirstLead(body + [ln]) ==
            if FirstLead(body) != "" then FirstLead(body) else if Blank(ln) then "" else LeadingSpace(ln)
  {
    if body == [] {
      assert body + [ln] == [ln];
    } else {
      assert (body + [ln])[1..] == body[1..] + [ln];
      if Blank(body[0]) {
        LeadStep(body[1..], ln);
      } else {
        assert Inside(body[0]);
      }
    }
  }

  lemma {:induction false} LeadIgnoresBlanks(body: Doc, m: nat)
    requires m <= |body| && forall i :: m <= i < |body| ==> Blank(body[i])
    ensures FirstLead(body[..m]) == FirstLead(body)
  {
    if body == [] {
    } else if m == 0 {
      LeadIgnoresBlanks(body[1..], 0);
    } else if Blank(body[0]) {
      LeadIgnoresBlanks(body[1..], m - 1);
      assert body[..m][1..] == body[1..][..m - 1];
    }
  }

  method FindHead(lines: Doc) returns (head: int)
    ensures head == if Head(lines) < |lines| then Head(lines) else -1
  {
    for i := 0 to |lines|
      invariant Head(lines) == i + Head(lines[i..])
    {
      HeadStep(lines, i);
      if IsRefsKey(lines[i]) {
        return i;
      }
    }
    return -1;
  }

  lemma LeadGrows(lines: Doc, start: nat, i: nat)
    requires start <= i < |lines| && forall j :: start <= j < i ==> Inside(lines[j])
    ensures var lead := FirstLead(lines[start..i]);
            FirstLead(lines[start..i + 1]) ==
            if lead != "" then lead else if Blank(lines[i]) then "" else LeadingSpace(lines[i])
  {
    LeadStep(lines[start..i], lines[i]);
    assert lines[start..i + 1] == lines[start..i] + [lines[i]];
  }

  /** Walks the section: its entries' first lead, and the line that ends it. */
  method WalkSection(lines: Doc, start: nat) returns (indent: string, end: nat)
    requires start <= |lines|
    ensures end == start + InsideCount(lines[start..]) && indent == FirstLead(lines[start..end])
  {
    end, indent := |lines|, "";
    for i := start to |lines|
      invariant InsideCount(lines[start..]) == i - start + InsideCount(lines[i..])
      invariant indent == FirstLead(lines[start..i]) && forall j :: start <= j < i ==> Inside(lines[j])
    {
      var ln := lines[i];
      InsideStep(lines, i);
      LeadGrows(lines, start, i);
      if TrimSpace(ln) != "" {
        var lead := LeadingSpace(ln);
        if lead == "" {
          end := i;
          return;
        }
        if indent == "" {
          indent := lead;
        }
      }
    }
  }

  /** Leaves the blank lines before `from` out of the section. */
  method BackOverBlanks(lines: Doc, start: nat, from: nat) returns (end: nat)
    requires start <= from <= |lines|
    ensures end == start + CoreLen(lines[start..], from - start)
  {
    end := from;
    while end > start && TrimSpace(lines[end - 1]) == ""
      invariant start <= end <= from && CoreLen(lines[start..], from - start) == CoreLen(lines[start..], end - start)
    {
      end := end - 1;
    }
  }

  lemma LeadOfSection(tail: Doc)
    ensures FirstLead(tail[..BodyLen(tail)]) == FirstLead(tail[..InsideCount(tail)])
  {
    var n := InsideCount(tail);
    CoreStops(tail, n);
    LeadIgnoresBlanks(tail[..n], BodyLen(tail));
    assert tail[..n][..BodyLen(tail)] == tail[..BodyLen(tail)];
  }

  method FindRefsBlock(lines: Doc) returns (indent: string, start: int, end: int)
    ensures match RefsOf(lines)
            case NoSection => indent == "" && start == -1 && end == 0
            case Section(i, s, e) => indent == i && start == s && end == e
  {
    var head := FindHead(lines);
    if head < 0 {
      return "", -1, 0;
    }
    start := head + 1;
    ghost var tail := lines[start..];
    LeadOfSection(tail);
    indent, end := WalkSection(lines, start);
    assert lines[start..end] == tail[..end - start];
    if indent == "" {
      indent := NEW_INDENT;
    }
    end := BackOverBlanks(lines, start, end);
  }

  method ScanBody(body: Doc) returns (saved: string, at: int, kept: Doc)
    ensures saved == Parked(body) && at == Place(body) && kept == Kept(body)
  {
    saved, at, kept := "", -1, [];
    var inManaged := false;
    for i := 0 to |body|
      invariant Scan(inManaged, saved, at, kept) == ScanFrom(UNSCANNED, body[..i])
    {
      assert body[..i + 1][..i] == body[..i];
      var ln := body[i];
      var trimmed := TrimSpace(ln);
      if trimmed == BEGIN {
        inManaged := true;
        if at < 0 {
          at := |kept|;
        }
      } else if trimmed == END {
        inManaged := false;
      } else if inManaged && HasPrefix(trimmed, SAVED) {
        saved := trimmed[|SAVED|..];
      } else if inManaged {
        // The block's own key line: dropped, not parked.
      } else if IsRefLine(ln) {
        saved := trimmed;
        if at < 0 {
          at := |kept|;
        }
      } else {
        kept := kept + [ln];
      }
    }
    assert body[..|body|] == body;
    if at < 0 {
      at := |kept|;
    }
  }

  method RenderManagedBlock(indent: string, apiKey: string, saved: string) returns (out: Doc)
    ensures out == ManagedBlock(indent, apiKey, saved)
  {
    out := [indent + BEGIN];
    if saved != "" {
      out := out + [indent + (SAVED + saved)];
    }
    out := out + [indent + (REF + ": " + QuoteYaml(apiKey))];
    out := out + [indent + END];
  }

  method ApplyBlock(lines: Doc, apiKey: string) returns (out: Doc)
    ensures out == Applied(lines, apiKey)
  {
    var indent, start, end := FindRefsBlock(lines);
    if start < 0 {
      out := lines;
      if |out| == 0 {
        out := out + ["version: 1", ""];
      } else if TrimSpace(out[|out| - 1]) != "" {
        out := out + [""];
      }
      assert out == lines + Separator(lines);
      var managed := RenderManagedBlock(NEW_INDENT, apiKey, "");
      out := out + ["refs:"] + managed;
    } else {
      var saved, at, body := ScanBody(lines[start..end]);
      var managed := RenderManagedBlock(indent, apiKey, saved);
      out := lines[..start] + (body[..at] + managed + body[at..]) + lines[end..];
    }
  }

  method RemoveBlock(lines: Doc) returns (out: Doc, changed: bool)
    ensures out == Removed(lines) && changed == StripFrom(UNSTRIPPED, lines).changed
  {
    var inManaged, indent := false, NEW_INDENT;
    out, changed := [], false;
    for i := 0 to |lines|
      invariant Strip(inManaged, changed, indent, out) == StripFrom(UNSTRIPPED, lines[..i])
    {
      assert lines[..i + 1][..i] == lines[..i];
      var ln := lines[i];
      var trimmed := TrimSpace(ln);
      if trimmed == BEGIN {
        inManaged, changed, indent := true, true, LeadingSpace(ln);
      } else if trimmed == END {
        inManaged := false;
      } else if inManaged && HasPrefix(trimmed, SAVED) {
        out := out + [indent + trimmed[|SAVED|..]];
      } else if !inManaged {
        out := out + [ln];
      }
    }
    assert lines[..|lines|] == lines;
  }

  method DropEmptyRefs(lines: Doc) returns (out: Doc)
    ensures out == WithoutEmptyRefs(lines)
  {
    var _, start, end := FindRefsBlock(lines);
    if start < 0 || end > start {
      return lines;
    }
    out := lines[..start - 1] + lines[start..];
  }

  method CheckVersioned(lines: Doc) returns (versioned: bool)
    ensures versioned == Versioned(lines)
  {
    if |lines| == 0 {
      return true;
    }
    for i := 0 to |lines|
      invariant forall j :: 0 <= j < i ==> !IsVersionKey(lines[j])
    {
      if IsVersionKey(lines[i]) {
        return true;
      }
    }
    return false;
  }

  /** The whole edit of the credential file, on its contents. */
  method Apply(file: string, apiKey: string) returns (outcome: Outcome)
    ensures outcome == AppliedFile(file, apiKey)
  {
    var key := TrimSpace(apiKey);
    if key == "" {
      return EmptyKey;
    }
    var doc := ReadLines(file);
    var versioned := CheckVersioned(doc);
    if !versioned {
      return Unversioned;
    }
    var out := ApplyBlock(doc, key);
    outcome := Stored(WriteLines(out));
  }

  /** Taking the key out of the credential file again; a file without one is left. */
  method Remove(file: string) returns (content: string)
    ensures content == RemovedFile(file)
  {
    var doc := ReadLines(file);
    if doc == [] {
      return file;
    }
    var out, changed := RemoveBlock(doc);
    if !changed {
      return file;
    }
    var dropped := DropEmptyRefs(out);
    content := WriteLines(dropped);
  }
}
