/** Inserting or replacing one section of an EditorConfig file (coding_lsp/lint_projection.py). */
module EditorConfig {
  import opened Wrappers
  import opened Text
  import opened Sequences

  function Mark(header: string): string {
    "[" + header + "]"
  }

  predicate Marks(line: string, header: string) {
    Strip(line) == Mark(header)
  }

  /** A bracketed line other than the section's own. */
  predicate Closes(line: string, header: string) {
    var s := Strip(line);
    s != Mark(header) && s != "" && s[0] == '[' && s[|s| - 1] == ']'
  }

  predicate IsRoot(line: string) {
    "root" <= Strip(line)
  }

  predicate HasRoot(lines: seq<string>) {
    exists i :: 0 <= i < |lines| && IsRoot(lines[i])
  }

  // ---------------------------------------------------------------- where the section is

  /** The lines `start .. end` are the section's: its last heading before any other section, up to that section. */
  ghost predicate IsSection(lines: seq<string>, header: string, start: nat, end: nat) {
    && start < end <= |lines| && Marks(lines[start], header)
    && (end < |lines| ==> Closes(lines[end], header))
    && (forall k :: start < k < end ==> !Marks(lines[k], header) && !Closes(lines[k], header))
    && (forall i, k :: 0 <= i < k < start && Marks(lines[i], header) ==> !Closes(lines[k], header))
  }

  datatype Section = Section(start: nat, end: nat)

  /** The one section, or that there is none. */
  ghost predicate Located(lines: seq<string>, header: string, found: Option<Section>) {
    match found
    case None => forall k :: 0 <= k < |lines| ==> !Marks(lines[k], header)
    case Some(s) => IsSection(lines, header, s.start, s.end)
  }

  lemma {:induction false} OneSection(lines: seq<string>, header: string, a: Option<Section>, b: Option<Section>)
    requires Located(lines, header, a) && Located(lines, header, b)
    ensures a == b
  {
  }

  /** The loop after `i` lines: no heading of the section yet, or its last one with no other section since. */
  ghost predicate Scanned(lines: seq<string>, header: string, i: nat, start: Option<nat>)
    requires i <= |lines|
  {
    match start
    case None => forall k :: 0 <= k < i ==> !Marks(lines[k], header)
    case Some(s) =>
      && s < i && Marks(lines[s], header)
      && (forall k :: s < k < i ==> !Marks(lines[k], header) && !Closes(lines[k], header))
      && (forall j, k :: 0 <= j < k < s && Marks(lines[j], header) ==> !Closes(lines[k], header))
  }

  lemma {:induction false} ScanMark(lines: seq<string>, header: string, i: nat, start: Option<nat>)
    requires i < |lines| && Scanned(lines, header, i, start) && Marks(lines[i], header)
    ensures Scanned(lines, header, i + 1, Some(i))
  {
    forall j, k | 0 <= j < k < i && Marks(lines[j], header) ensures !Closes(lines[k], header) {
      if k == start.value {
        assert Marks(lines[k], header);
      }
    }
  }

  lemma {:induction false} ScanEnd(lines: seq<string>, header: string, i: nat, start: nat)
    requires i <= |lines| && Scanned(lines, header, i, Some(start)) && (i < |lines| ==> Closes(lines[i], header))
    ensures IsSection(lines, header, start, i)
  {
  }

  method Locate(lines: seq<string>, header: string) returns (found: Option<Section>)
    ensures Located(lines, header, found)
  {
    var start: Option<nat> := None;
    for i := 0 to |lines|
      invariant Scanned(lines, header, i, start)
    {
      if Marks(lines[i], header) {
        ScanMark(lines, header, i, start);
        start := Some(i);
      } else if start.Some? && Closes(lines[i], header) {
        ScanEnd(lines, header, i, start.value);
        return Some(Section(start.value, i));
      }
    }
    if start.None? { return None; }
    ScanEnd(lines, header, |lines|, start.value);
    return Some(Section(start.value, |lines|));
  }

  // ---------------------------------------------------------------- the merge

  const ROOT := ["root = true", ""]

  /** The lines with the section put in the place found for it. */
  function Placed(lines: seq<string>, header: string, body: seq<string>, found: Option<Section>): seq<string>
    requires found.Some? ==> found.value.start < found.value.end <= |lines|
  {
    match found
    case None => lines + (if lines != [] && !IsBlank(lines[|lines| - 1]) then [""] else []) + ([Mark(header)] + body)
    case Some(s) => lines[..s.start] + ([Mark(header)] + body) + lines[s.end..]
  }

  function Rooted(lines: seq<string>): (r: seq<string>)
    ensures HasRoot(r)
  {
    if HasRoot(lines) then lines
    else
      assert Strip("root = true") == "root = true" by { assert RStrip("root = true") == "root = true"; }
      assert IsRoot((ROOT + lines)[0]);
      ROOT + lines
  }

  /** `text` is what merging the section into `existing` gives. */
  ghost predicate Merges(existing: string, header: string, body: seq<string>, text: string) {
    exists found :: Located(SplitLines(existing), header, found) &&
        text == Render(Rooted(Placed(SplitLines(existing), header, body, found)))
  }

  method Merge(existing: string, header: string, body: seq<string>) returns (text: string)
    ensures Merges(existing, header, body, text)
  {
    var lines := SplitLines(existing);
    var found := Locate(lines, header);
    text := Render(Rooted(Placed(lines, header, body, found)));
  }

  // ---------------------------------------------------------------- merging twice

  /** What the caller passes: single lines, none of them bracketed. */
  predicate SectionBody(body: seq<string>, header: string) {
    OneLine(Mark(header)) && AllOneLine(body) && forall k :: 0 <= k < |body| ==>
        !Marks(body[k], header) && !Closes(body[k], header)
  }

  /** Lines that may stand before and after the section. */
  ghost predicate Around(p: seq<string>, r: seq<string>, header: string) {
    && (forall i, k :: 0 <= i < k < |p| && Marks(p[i], header) ==> !Closes(p[k], header))
    && (r == [] || Closes(r[0], header))
  }

  lemma {:induction false} MarkMarks(header: string)
    ensures Marks(Mark(header), header) && RStrip(Mark(header)) == Mark(header) && !IsBlank(Mark(header))
  {
    var m := Mark(header);
    assert m[|m| - 1] == ']' && m[0] == '[';
    assert RStrip(m) == m && LStrip(m) == m;
  }

  lemma {:induction false} SectionFound(p: seq<string>, m: string, body: seq<string>, r: seq<string>, header: string)
    requires Around(p, r, header) && Marks(m, header)
    requires forall k :: 0 <= k < |body| ==> !Marks(body[k], header) && !Closes(body[k], header)
    ensures IsSection(p + [m] + body + r, header, |p|, |p| + 1 + |body|)
  {
    var lines := p + [m] + body + r;
    assert forall k :: 0 <= k < |p| ==> lines[k] == p[k];
    assert lines[|p|] == m && (r != [] ==> lines[|p| + 1 + |body|] == r[0]);
    assert forall k :: |p| < k < |p| + 1 + |body| ==> lines[k] == body[k - |p| - 1];
  }

  lemma {:induction false} TrimEndAppend(a: seq<string>, b: seq<string>)
    ensures TrimEnd(a + b) == if TrimEnd(b) == [] then TrimEnd(a) else a + TrimEnd(b)
    decreases |b|
  {
    if b == [] {
      assert a + b == a;
    } else {
      var init, last := b[..|b| - 1], b[|b| - 1];
      assert (a + b)[..|a + b| - 1] == a + init && (a + b)[|a + b| - 1] == last;
      if IsBlank(last) {
        TrimEndAppend(a, init);
      } else {
        assert a + init + [RStrip(last)] == a + (init + [RStrip(last)]);
      }
    }
  }

  lemma {:induction false} ClosesTrimmed(line: string, header: string)
    requires Closes(line, header)
    ensures !IsBlank(line) && Closes(RStrip(line), header)
  {
    RStripTwice(line);
  }

  lemma {:induction false} TrimEndHead(r: seq<string>, header: string)
    requires r != [] && Closes(r[0], header)
    ensures TrimEnd(r) != [] && Closes(TrimEnd(r)[0], header)
    decreases |r|
  {
    ClosesTrimmed(r[0], header);
    if |r| > 1 && IsBlank(r[|r| - 1]) {
      TrimEndHead(r[..|r| - 1], header);
    }
  }

  lemma {:induction false} TrimEndBody(body: seq<string>, header: string)
    requires SectionBody(body, header)
    ensures SectionBody(TrimEnd(body), header)
    decreases |body|
  {
    if body != [] {
      var init, last := body[..|body| - 1], body[|body| - 1];
      if IsBlank(last) {
        TrimEndBody(init, header);
      } else {
        RStripTwice(last);
        assert !Marks(RStrip(last), header) && !Closes(RStrip(last), header);
        assert OneLine(RStrip(last));
      }
    }
  }

  lemma {:induction false} MarkTrimmed(p: seq<string>, header: string)
    ensures TrimEnd(p + [Mark(header)]) == p + [Mark(header)]
  {
    MarkMarks(header);
    assert (p + [Mark(header)])[..|p|] == p;
  }

  /** What reading back the merged lines gives. */
  lemma {:induction false} TrimmedSection(p: seq<string>, header: string, body: seq<string>, r: seq<string>)
    requires Around(p, r, header)
    ensures r == [] ==> TrimEnd(p + [Mark(header)] + body + r) == p + [Mark(header)] + TrimEnd(body) + []
    ensures r != [] ==> TrimEnd(p + [Mark(header)] + body + r) == p + [Mark(header)] + body + TrimEnd(r)
    ensures Around(p, TrimEnd(r), header)
  {
    var front := p + [Mark(header)];
    if r == [] {
      assert front + body + r == front + body;
      MarkTrimmed(p, header);
      TrimEndAppend(front, body);
    } else {
      TrimEndHead(r, header);
      TrimEndAppend(front + body, r);
    }
  }

  lemma {:induction false} RootTrimmed(lines: seq<string>)
    ensures HasRoot(TrimEnd(lines)) == HasRoot(lines)
    decreases |lines|
  {
    if lines != [] {
      var init, last := lines[..|lines| - 1], lines[|lines| - 1];
      assert lines == init + [last];
      RootAppend(init, last);
      if IsBlank(last) {
        RootTrimmed(init);
      } else {
        RStripTwice(last);
        RootAppend(init, RStrip(last));
      }
    }
  }

  lemma {:induction false} RootAppend(init: seq<string>, last: string)
    ensures HasRoot(init + [last]) <==> HasRoot(init) || IsRoot(last)
  {
    var lines := init + [last];
    assert lines[|init|] == last;
    if HasRoot(init) {
      var i :| 0 <= i < |init| && IsRoot(init[i]);
      assert lines[i] == init[i];
    }
    if HasRoot(lines) {
      var i :| 0 <= i < |lines| && IsRoot(lines[i]);
      assert i < |init| ==> init[i] == lines[i];
    }
  }

  lemma {:induction false} RenderTrimmed(a: seq<string>, b: seq<string>)
    requires TrimEnd(a) == TrimEnd(b)
    ensures Render(a) == Render(b)
  {
    JoinTrimmed(a);
    JoinTrimmed(b);
  }

  /** Reading a merged file back finds the section again. */
  lemma {:induction false} FoundAgain(
    p: seq<string>, header: string, body: seq<string>, r: seq<string>, shown: seq<string>)
    requires Around(p, r, header) && SectionBody(body, header) && AllOneLine(p + [Mark(header)] + body + r)
    requires shown == if r == [] then TrimEnd(body) else body
    ensures var lines := p + [Mark(header)] + shown + TrimEnd(r);
            && SplitLines(Render(p + [Mark(header)] + body + r)) == lines
            && Located(lines, header, Some(Section(|p|, |p| + 1 + |shown|)))
  {
    TrimmedSection(p, header, body, r);
    SplitRendered(p + [Mark(header)] + body + r);
    MarkMarks(header);
    TrimEndBody(body, header);
    SectionFound(p, Mark(header), shown, TrimEnd(r), header);
  }

  /** The section in its place between trimmed lines is written the same. */
  lemma {:induction false} WrittenAgain(p: seq<string>, header: string, body: seq<string>, r: seq<string>)
    requires Around(p, r, header) && HasRoot(p + [Mark(header)] + body + r)
    ensures Render(Rooted(p + [Mark(header)] + body + TrimEnd(r))) == Render(p + [Mark(header)] + body + r)
  {
    var all, placed := p + [Mark(header)] + body + r, p + [Mark(header)] + body + TrimEnd(r);
    TrimmedSection(p, header, body, r);
    TrimmedSection(p, header, body, TrimEnd(r));
    TrimEndTwice(r);
    if r != [] {
      TrimEndHead(r, header);
    }
    assert TrimEnd(placed) == TrimEnd(all);
    RootTrimmed(all);
    RootTrimmed(placed);
    RenderTrimmed(all, placed);
  }

  lemma {:induction false} PlacedAgain(p: seq<string>, header: string, body: seq<string>, r: seq<string>, again: string)
    requires Around(p, r, header) && SectionBody(body, header)
    requires var all := p + [Mark(header)] + body + r;
            AllOneLine(all) && HasRoot(all) && Merges(Render(all), header, body, again)
    ensures again == Render(p + [Mark(header)] + body + r)
  {
    var all := p + [Mark(header)] + body + r;
    var shown := if r == [] then TrimEnd(body) else body;
    var lines := SplitLines(Render(all));
    var found :| Located(lines, header, found) && again == Render(Rooted(Placed(lines, header, body, found)));
    FoundAgain(p, header, body, r, shown);
    OneSection(lines, header, found, Some(Section(|p|, |p| + 1 + |shown|)));
    PlacedBetween(p, header, shown, body, TrimEnd(r));
    WrittenAgain(p, header, body, r);
  }

  lemma {:induction false} PlacedBetween(
    p: seq<string>, header: string, shown: seq<string>, body: seq<string>, rest: seq<string>)
    ensures Placed(p + [Mark(header)] + shown + rest, header, body, Some(Section(|p|, |p| + 1 + |shown|))) ==
              p + [Mark(header)] + body + rest
  {
    var lines := p + [Mark(header)] + shown + rest;
    assert lines[..|p|] == p && lines[|p| + 1 + |shown|..] == rest;
  }

  /** The merged lines, taken apart at the section. */
  lemma {:induction false} PlacedAround(lines: seq<string>, header: string, body: seq<string>, found: Option<Section>)
    returns (p: seq<string>, r: seq<string>)
    requires Located(lines, header, found)
    ensures Around(p, r, header) && Placed(lines, header, body, found) == p + [Mark(header)] + body + r
    ensures AllOneLine(lines) ==> AllOneLine(p) && AllOneLine(r)
  {
    match found
    case None =>
      p, r := lines + (if lines != [] && !IsBlank(lines[|lines| - 1]) then [""] else []), [];
      EmptyLine(header);
    case Some(s) =>
      p, r := lines[..s.start], lines[s.end..];
  }

  lemma {:induction false} EmptyLine(header: string)
    ensures !Marks("", header) && !Closes("", header) && OneLine("")
  {
  }

  lemma {:induction false} RootedAround(p: seq<string>, r: seq<string>, header: string)
    requires Around(p, r, header)
    ensures Around(ROOT + p, r, header) && AllOneLine(ROOT)
  {
    var all := ROOT + p;
    RootLines(header);
    assert forall k :: 2 <= k < |all| ==> all[k] == p[k - 2];
    assert all[0] == ROOT[0] && all[1] == ROOT[1];
  }

  lemma {:induction false} RootLines(header: string)
    ensures forall k :: 0 <= k < 2 ==> !Marks(ROOT[k], header) && !Closes(ROOT[k], header) && OneLine(ROOT[k])
  {
    assert Strip("root = true") == "root = true" by { assert RStrip("root = true") == "root = true"; }
    assert Mark(header)[0] == '[';
  }

  /** The written lines, taken apart at the section. */
  lemma {:induction false} RootedPlaced(lines: seq<string>, header: string, body: seq<string>, found: Option<Section>)
    returns (p: seq<string>, r: seq<string>)
    requires Located(lines, header, found) && SectionBody(body, header) && AllOneLine(lines)
    ensures Around(p, r, header) && Rooted(Placed(lines, header, body, found)) == p + [Mark(header)] + body + r
    ensures AllOneLine(p + [Mark(header)] + body + r)
  {
    p, r := PlacedAround(lines, header, body, found);
    RootedAround(p, r, header);
    if !HasRoot(p + [Mark(header)] + body + r) {
      assert ROOT + (p + [Mark(header)] + body + r) == (ROOT + p) + [Mark(header)] + body + r;
      p := ROOT + p;
    }
  }

  /** Merging the same section again changes nothing. */
  lemma {:induction false} MergeTwice(existing: string, header: string, body: seq<string>, text: string, again: string)
    requires SectionBody(body, header)
    requires Merges(existing, header, body, text) && Merges(text, header, body, again)
    ensures again == text
  {
    var lines := SplitLines(existing);
    SplitLinesAreLines(existing);
    var found :| Located(lines, header, found) && text == Render(Rooted(Placed(lines, header, body, found)));
    var p, r := RootedPlaced(lines, header, body, found);
    PlacedAgain(p, header, body, r, again);
  }

  // ---------------------------------------------------------------- what a merge keeps

  function LinesBefore(lines: seq<string>, found: Option<Section>): seq<string>
    requires found.Some? ==> found.value.start <= |lines|
  {
    if found.None? then lines else lines[..found.value.start]
  }

  function LinesAfter(lines: seq<string>, found: Option<Section>): seq<string>
    requires found.Some? ==> found.value.end <= |lines|
  {
    if found.None? then [] else lines[found.value.end..]
  }

  lemma {:induction false} VisibleParts(p: seq<string>, m: string, body: seq<string>, r: seq<string>)
    ensures Visible(p + ([m] + body) + r) == Visible(p) + Visible([m]) + Visible(body) + Visible(r)
  {
    VisibleAppend(p + ([m] + body), r);
    VisibleAppend(p, [m] + body);
    VisibleAppend([m], body);
    Assoc(Visible(p), Visible([m]), Visible(body));
  }

  lemma {:induction false} OneVisible(line: string)
    requires !IsBlank(line) && RStrip(line) == line
    ensures Visible([line]) == [line]
  {
    assert Visible([line][..0]) == [];
  }

  lemma {:induction false} RootVisible()
    ensures Visible(ROOT) == ["root = true"]
  {
    assert RStrip("root = true") == "root = true";
    OneVisible("root = true");
    assert ROOT == ["root = true"] + [""];
    VisibleAppend(["root = true"], [""]);
    assert Visible([""][..0]) == [];
  }

  lemma {:induction false} GapVisible(lines: seq<string>, gap: seq<string>, m: string, body: seq<string>)
    requires gap == [] || gap == [""]
    ensures Visible(lines + gap + ([m] + body)) == Visible(lines) + Visible([m]) + Visible(body) + []
  {
    assert Visible([""][..0]) == [] && Visible(gap) == [];
    VisibleAppend(lines, gap);
    VisibleAppend(lines + gap, [m] + body);
    VisibleAppend([m], body);
    Assoc(Visible(lines), Visible([m]), Visible(body));
  }

  lemma {:induction false} PlacedVisible(lines: seq<string>, header: string, body: seq<string>, found: Option<Section>)
    requires found.Some? ==> found.value.start < found.value.end <= |lines|
    ensures Visible(Placed(lines, header, body, found)) ==
            Visible(LinesBefore(lines, found)) + [Mark(header)] + Visible(body) + Visible(LinesAfter(lines, found))
  {
    MarkMarks(header);
    OneVisible(Mark(header));
    match found
    case None =>
      GapVisible(lines, if lines != [] && !IsBlank(lines[|lines| - 1]) then [""] else [], Mark(header), body);
    case Some(s) => VisibleParts(lines[..s.start], Mark(header), body, lines[s.end..]);
  }

  /** What a reader sees of written lines. */
  lemma {:induction false} RootedVisible(placed: seq<string>)
    requires AllOneLine(Rooted(placed))
    ensures Visible(SplitLines(Render(Rooted(placed)))) ==
              (if HasRoot(placed) then [] else ["root = true"]) + Visible(placed)
  {
    VisibleRendered(Rooted(placed));
    RootVisible();
    VisibleAppend(ROOT, placed);
    assert [] + Visible(placed) == Visible(placed);
  }

  /**
    A merge keeps every visible line before and after the section, in order; it changes the section and
    puts `root = true` first when no line starts with `root`.
   */
  lemma {:induction false} MergeKeeps(
    existing: string, header: string, body: seq<string>, text: string, found: Option<Section>)
    requires SectionBody(body, header) && Merges(existing, header, body, text) &&
              Located(SplitLines(existing), header, found)
    ensures var lines := SplitLines(existing);
            Visible(SplitLines(text)) ==
            (if HasRoot(Placed(lines, header, body, found)) then [] else ["root = true"]) +
            (Visible(LinesBefore(lines, found)) + [Mark(header)] + Visible(body) + Visible(LinesAfter(lines, found)))
  {
    var lines := SplitLines(existing);
    SplitLinesAreLines(existing);
    var other :| Located(lines, header, other) && text == Render(Rooted(Placed(lines, header, body, other)));
    OneSection(lines, header, found, other);
    var p, r := RootedPlaced(lines, header, body, found);
    RootedVisible(Placed(lines, header, body, found));
    PlacedVisible(lines, header, body, found);
  }
}
