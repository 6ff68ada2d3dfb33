/**
  Which review ids the integrity index reads from an item body (planning/integrity.py), next to where the
  edits of planning/item_store.py put them.  The index has its own rule for the Reviews heading: it begins a
  line, may continue on a later line, and any line that begins with `##` and white space ends its section.
 */
module ReviewIndex {
  import opened Wrappers
  import opened Text
  import opened RecordIds
  import opened ReviewLinks

  // ---------------------------------------------------------------- what a line is to the index

  /** Case-insensitive matching also takes the capital I with a dot, the dotless i and the long s. */
  function Fold(c: char): char {
    if c == '\U{130}' || c == '\U{131}' then 'i' else if c == '\U{17F}' then 's' else LowerChar(c)
  }

  predicate IsTitle(s: string) {
    var t, title := Strip(s), "reviews";
    |t| == |title| && forall i :: 0 <= i < |t| ==> Fold(t[i]) == title[i]
  }

  predicate IsHashes(line: string) {
    |line| >= 2 && line[0] == '#' && line[1] == '#'
  }

  predicate IsAlnum(c: char) {
    IsUpper(c) || IsLower(c) || IsDigit(c)
  }

  ghost predicate NamedAt(line: string, id: string, k: nat) {
    && k + |id| <= |line| && line[k..k + |id|] == id
    && (k > 0 ==> !IsAlnum(line[k - 1])) && (k + |id| < |line| ==> !IsAlnum(line[k + |id|]))
  }

  /** The id stands in the line, not inside a longer word. */
  ghost predicate Names(line: string, id: string) {
    exists k: nat :: NamedAt(line, id, k)
  }

  datatype Mark = Mark(blank: bool, title: bool, lone: bool, whole: bool, stop: bool, names: bool)

  /** `##` alone begins a heading that goes on below; `## Reviews` is a whole one. */
  ghost function MarkOf(line: string, id: string): Mark {
    Mark(
      IsBlank(line), IsTitle(line), IsHashes(line) && IsBlank(line[2..]),
      IsHashes(line) && |line| > 2 && IsSpace(line[2]) && IsTitle(line[2..]),
      IsHashes(line) && (|line| == 2 || IsSpace(line[2])), Names(line, id))
  }

  ghost function Marks(lines: seq<string>, id: string): (marks: seq<Mark>)
    ensures |marks| == |lines| && forall i :: 0 <= i < |lines| ==> marks[i] == MarkOf(lines[i], id)
  {
    seq(|lines|, i requires 0 <= i < |lines| => MarkOf(lines[i], id))
  }

  const BLANK := Mark(true, false, false, false, false, false)

  const LINK := Mark(false, false, false, false, false, true)

  // ---------------------------------------------------------------- the section the index reads

  /** A heading begins on line `i` and ends on line `j`. */
  ghost predicate HeadingAt(marks: seq<Mark>, i: nat, j: nat) {
    && i <= j < |marks|
    && if marks[i].whole then j == i
       else marks[i].lone && i < j && marks[j].title && forall k :: i < k < j ==> marks[k].blank
  }

  ghost predicate NoHeading(marks: seq<Mark>) {
    forall i: nat, j: nat :: !HeadingAt(marks, i, j)
  }

  ghost predicate FirstHeading(marks: seq<Mark>, i: nat, j: nat) {
    HeadingAt(marks, i, j) && forall k: nat, l: nat :: k < i ==> !HeadingAt(marks, k, l)
  }

  ghost predicate NoStop(marks: seq<Mark>, from: nat, to: nat) {
    forall k :: from < k < to && k < |marks| ==> !marks[k].stop
  }

  /** Line `n` is behind the first heading and before the next one, or there is no heading. */
  ghost predicate Covered(marks: seq<Mark>, n: nat) {
    NoHeading(marks) || exists i: nat, j: nat :: FirstHeading(marks, i, j) && j < n && NoStop(marks, j, n + 1)
  }

  ghost predicate Indexed(marks: seq<Mark>) {
    exists n: nat :: n < |marks| && marks[n].names && Covered(marks, n)
  }

  /** `review_links`: the id is among those that the index reads from the body. */
  ghost predicate IndexLinks(body: string, id: string) {
    Indexed(Marks(SplitLines(body), id))
  }

  /** A line put in at `at` will be read: the first heading ends before it, with no other one between. */
  ghost predicate Reaches(marks: seq<Mark>, at: nat) {
    NoHeading(marks) || exists i: nat, j: nat :: FirstHeading(marks, i, j) && j < at && NoStop(marks, j, at)
  }

  // ---------------------------------------------------------------- one more line

  lemma {:induction false} InsertedHeading(a: seq<Mark>, m: Mark, c: seq<Mark>, i: nat, j: nat)
    requires !m.blank && !m.title && !m.lone && !m.whole
    ensures j < |a| ==> (HeadingAt(a + [m] + c, i, j) <==> HeadingAt(a + c, i, j))
    ensures i > |a| && j > 0 ==> (HeadingAt(a + [m] + c, i, j) <==> HeadingAt(a + c, i - 1, j - 1))
    ensures i <= |a| <= j ==> !HeadingAt(a + [m] + c, i, j)
  {
    var was, now := a + c, a + [m] + c;
    assert forall k :: 0 <= k < |a| ==> now[k] == was[k] == a[k];
    assert now[|a|] == m;
    assert forall k :: |a| < k < |now| ==> now[k] == was[k - 1];
    assert forall k :: |a| <= k < |was| ==> was[k] == now[k + 1];
  }

  ghost predicate Spans(marks: seq<Mark>, at: nat) {
    exists i: nat, j: nat :: i < at <= j && HeadingAt(marks, i, j)
  }

  lemma {:induction false} InsertedNoHeading(a: seq<Mark>, m: Mark, c: seq<Mark>)
    requires !m.blank && !m.title && !m.lone && !m.whole && !Spans(a + c, |a|)
    ensures NoHeading(a + [m] + c) <==> NoHeading(a + c)
  {
    if i: nat, j: nat :| HeadingAt(a + [m] + c, i, j) {
      InsertedHeading(a, m, c, i, j);
      assert HeadingAt(a + c, if j < |a| then i else i - 1, if j < |a| then j else j - 1);
    }
    if i: nat, j: nat :| HeadingAt(a + c, i, j) {
      InsertedHeading(a, m, c, i, j);
      InsertedHeading(a, m, c, i + 1, j + 1);
      assert j < |a| || i >= |a|;
      assert HeadingAt(a + [m] + c, if j < |a| then i else i + 1, if j < |a| then j else j + 1);
    }
  }

  lemma {:induction false} InsertedFirst(a: seq<Mark>, m: Mark, c: seq<Mark>, i: nat, j: nat)
    requires !m.blank && !m.title && !m.lone && !m.whole && !Spans(a + c, |a|) && j < |a|
    ensures FirstHeading(a + [m] + c, i, j) <==> FirstHeading(a + c, i, j)
  {
    InsertedHeading(a, m, c, i, j);
    if HeadingAt(a + c, i, j) {
      forall k: nat, l: nat | k < i ensures HeadingAt(a + [m] + c, k, l) ==> HeadingAt(a + c, k, l) {
        InsertedHeading(a, m, c, k, l);
      }
      forall k: nat, l: nat | k < i ensures HeadingAt(a + c, k, l) ==> HeadingAt(a + [m] + c, k, l) {
        InsertedHeading(a, m, c, k, l);
      }
    }
  }

  lemma {:induction false} InsertedStops(a: seq<Mark>, m: Mark, c: seq<Mark>, j: nat)
    requires !m.stop
    ensures NoStop(a + [m] + c, j, |a| + 1) <==> NoStop(a + c, j, |a|)
  {
    var was, now := a + c, a + [m] + c;
    assert forall k :: 0 <= k < |a| ==> now[k] == was[k];
    assert now[|a|] == m;
  }

  /** The index covers a line that was put in exactly when it reached that place before. */
  lemma {:induction false} InsertedCovered(a: seq<Mark>, m: Mark, c: seq<Mark>)
    requires m == LINK && !Spans(a + c, |a|)
    ensures Covered(a + [m] + c, |a|) <==> Reaches(a + c, |a|)
  {
    InsertedNoHeading(a, m, c);
    if i: nat, j: nat :| FirstHeading(a + [m] + c, i, j) && j < |a| && NoStop(a + [m] + c, j, |a| + 1) {
      InsertedFirst(a, m, c, i, j);
      InsertedStops(a, m, c, j);
    }
    if i: nat, j: nat :| FirstHeading(a + c, i, j) && j < |a| && NoStop(a + c, j, |a|) {
      InsertedFirst(a, m, c, i, j);
      InsertedStops(a, m, c, j);
    }
  }

  ghost predicate Nameless(marks: seq<Mark>) {
    forall k :: 0 <= k < |marks| ==> !marks[k].names
  }

  lemma {:induction false} InsertedIndexed(a: seq<Mark>, m: Mark, c: seq<Mark>)
    requires m == LINK && !Spans(a + c, |a|) && Nameless(a + c)
    ensures Indexed(a + [m] + c) <==> Reaches(a + c, |a|)
  {
    var was, now := a + c, a + [m] + c;
    InsertedCovered(a, m, c);
    assert now[|a|] == m;
    assert forall k :: 0 <= k < |a| ==> now[k] == was[k];
    assert forall k :: |a| < k < |now| ==> now[k] == was[k - 1];
    assert forall n: nat :: n < |now| && now[n].names ==> n == |a|;
  }

  // ---------------------------------------------------------------- a new section

  const HEAD := Mark(false, false, false, true, true, false)

  lemma {:induction false} FreshHeading(was: seq<Mark>, gap: seq<Mark>, i: nat, j: nat)
    requires gap == [] || gap == [BLANK]
    ensures HeadingAt(was + gap + [HEAD, BLANK, LINK], i, j) <==>
            HeadingAt(was, i, j) || (i == j == |was + gap|)
  {
    var now, h := was + gap + [HEAD, BLANK, LINK], |was + gap|;
    assert forall k :: 0 <= k < |was| ==> now[k] == was[k];
    assert forall k :: |was| <= k < h ==> now[k] == BLANK;
    assert now[h] == HEAD && now[h + 1] == BLANK && now[h + 2] == LINK;
  }

  lemma {:induction false} FreshIndexed(was: seq<Mark>, gap: seq<Mark>)
    requires (gap == [] || gap == [BLANK]) && Nameless(was)
    ensures Indexed(was + gap + [HEAD, BLANK, LINK]) <==> NoHeading(was)
  {
    var now, h := was + gap + [HEAD, BLANK, LINK], |was + gap|;
    forall i: nat, j: nat
      ensures HeadingAt(now, i, j) <==> HeadingAt(was, i, j) || (i == j == h) {
      FreshHeading(was, gap, i, j);
    }
    assert now[h] == HEAD && now[h + 1] == BLANK && now[h + 2] == LINK;
    assert HeadingAt(now, h, h);
    if NoHeading(was) {
      assert FirstHeading(now, h, h) && NoStop(now, h, h + 3);
      assert Covered(now, h + 2);
    }
    assert forall k :: 0 <= k < |was| ==> now[k] == was[k];
    assert forall k :: |was| <= k < h ==> now[k] == BLANK;
    assert forall n: nat :: n < |now| && now[n].names ==> n == h + 2;
    if Indexed(now) {
      assert Covered(now, h + 2);
      var i: nat, j: nat :| FirstHeading(now, i, j) && j < h + 2 && NoStop(now, j, h + 3);
      assert j == h;
      assert forall k: nat, l: nat :: k < h ==> !HeadingAt(now, k, l);
    }
  }

  // ---------------------------------------------------------------- trimmed lines mean the same

  lemma {:induction false} LastBlankIndexed(marks: seq<Mark>)
    ensures Indexed(marks + [BLANK]) <==> Indexed(marks)
  {
    var longer := marks + [BLANK];
    assert longer[|marks|] == BLANK && forall k :: 0 <= k < |marks| ==> longer[k] == marks[k];
    forall i: nat, j: nat ensures HeadingAt(longer, i, j) <==> HeadingAt(marks, i, j) {
    }
    forall j: nat, to: nat | to <= |marks| ensures NoStop(longer, j, to) <==> NoStop(marks, j, to) {
    }
    assert forall i: nat, j: nat :: FirstHeading(longer, i, j) <==> FirstHeading(marks, i, j);
    forall n: nat | n < |marks| ensures Covered(longer, n) <==> Covered(marks, n) {
    }
  }

  lemma {:induction false} RStripRest(s: string)
    ensures forall i :: |RStrip(s)| <= i < |s| ==> IsSpace(s[i])
    decreases |s|
  {
    if s != "" && IsSpace(s[|s| - 1]) {
      RStripRest(s[..|s| - 1]);
    }
  }

  lemma {:induction false} NamesTrimmed(line: string, id: string)
    requires IsReviewId(id)
    ensures Names(RStrip(line), id) <==> Names(line, id)
  {
    var r := RStrip(line);
    RStripRest(line);
    if k: nat :| NamedAt(r, id, k) {
      assert r[k..k + |id|] == line[k..k + |id|];
      assert NamedAt(line, id, k);
    }
    if k: nat :| NamedAt(line, id, k) {
      assert line[k..k + |id|][|id| - 1] == line[k + |id| - 1];
      assert !IsSpace(id[|id| - 1]);
      assert r[k..k + |id|] == line[k..k + |id|];
      assert NamedAt(r, id, k);
    }
  }

  lemma {:induction false} HashesTrimmed(line: string)
    requires IsHashes(line)
    ensures IsHashes(RStrip(line)) && RStrip(line)[2..] == RStrip(line[2..])
  {
    var rest := line[2..];
    assert line == "##" + rest;
    if IsBlank(rest) {
      BlankIsSpaces(rest);
      RStripSpaces("##", rest);
      assert RStrip("##") == "##";
    } else {
      RStripSuffix("##", rest);
    }
  }

  lemma {:induction false} SpacesAreNoHashes(line: string)
    requires IsHashes(RStrip(line))
    ensures IsHashes(line)
  {
  }

  lemma {:induction false} RestTrimmed(rest: string)
    ensures IsBlank(RStrip(rest)) == IsBlank(rest) && IsTitle(RStrip(rest)) == IsTitle(rest)
    ensures (rest == "" || IsSpace(rest[0])) <==> (RStrip(rest) == "" || IsSpace(RStrip(rest)[0]))
    ensures IsTitle(rest) ==> RStrip(rest) != ""
  {
    RStripTwice(rest);
    if RStrip(rest) == "" {
      BlankIsSpaces(rest);
    }
  }

  lemma {:induction false} MarkTrimmed(line: string, id: string)
    requires IsReviewId(id)
    ensures MarkOf(RStrip(line), id) == MarkOf(line, id)
  {
    RStripTwice(line);
    NamesTrimmed(line, id);
    if IsHashes(line) {
      HashesTrimmed(line);
      RestTrimmed(line[2..]);
      var r := RStrip(line);
      assert |r| > 2 ==> r[2] == r[2..][0];
      assert |line| > 2 ==> line[2] == line[2..][0];
    } else if IsHashes(RStrip(line)) {
      SpacesAreNoHashes(line);
    }
  }

  /** A line that names a review is not blank and holds a digit. */
  lemma {:induction false} NamesNeeds(line: string, id: string)
    requires IsReviewId(id)
    ensures Names(line, id) ==> exists i :: 0 <= i < |line| && IsDigit(line[i]) && !IsSpace(line[i])
  {
    if k: nat :| NamedAt(line, id, k) {
      assert line[k + 2] == line[k..k + |id|][2] == id[2..][0];
    }
  }

  lemma {:induction false} BlankMark(line: string, id: string)
    requires IsBlank(line) && IsReviewId(id)
    ensures MarkOf(line, id) == BLANK
  {
    BlankIsSpaces(line);
    assert Strip(line) == "";
    NamesNeeds(line, id);
  }

  lemma {:induction false} MarksAppend(a: seq<string>, b: seq<string>, id: string)
    ensures Marks(a + b, id) == Marks(a, id) + Marks(b, id)
  {
  }

  lemma {:induction false} MarksLast(init: seq<string>, last: string, id: string)
    ensures Marks(init + [last], id) == Marks(init, id) + [MarkOf(last, id)]
  {
    MarksAppend(init, [last], id);
    assert Marks([last], id) == [MarkOf(last, id)];
  }

  lemma {:induction false} TrimmedLast(init: seq<string>, last: string, id: string)
    requires IsReviewId(id)
    ensures Marks(init + [RStrip(last)], id) == Marks(init + [last], id)
    ensures IsBlank(last) ==> (Indexed(Marks(init + [last], id)) <==> Indexed(Marks(init, id)))
  {
    MarksLast(init, last, id);
    MarksLast(init, RStrip(last), id);
    MarkTrimmed(last, id);
    if IsBlank(last) {
      BlankMark(last, id);
      LastBlankIndexed(Marks(init, id));
    }
  }

  lemma {:induction false} TrimmedIndexed(lines: seq<string>, id: string)
    requires IsReviewId(id)
    ensures Indexed(Marks(TrimEnd(lines), id)) <==> Indexed(Marks(lines, id))
    decreases |lines|
  {
    if lines != [] {
      var init, last := lines[..|lines| - 1], lines[|lines| - 1];
      assert lines == init + [last];
      TrimmedLast(init, last, id);
      if IsBlank(last) {
        TrimmedIndexed(init, id);
      }
    }
  }

  lemma {:induction false} RenderedIndexed(lines: seq<string>, id: string)
    requires AllOneLine(lines) && IsReviewId(id)
    ensures IndexLinks(Render(lines), id) <==> Indexed(Marks(lines, id))
  {
    SplitRendered(lines);
    TrimmedIndexed(lines, id);
    if TrimEnd(lines) == [] {
      BlankMark("", id);
      assert Marks([""], id) == [] + [BLANK] && Marks([], id) == [];
      LastBlankIndexed([]);
    }
  }

  // ---------------------------------------------------------------- the edited body

  lemma {:induction false} BulletMark(id: string)
    requires IsReviewId(id)
    ensures MarkOf(Bullet(id), id) == LINK
  {
    var b := Bullet(id);
    BulletLinks(id);
    assert b[2..2 + |id|] == id && b[1] == ' ';
    assert NamedAt(b, id, 2);
    assert b[|b| - 1] == id[|id| - 1];
    assert RStrip(b) == b && Strip(b) == b;
    assert b[0] == '-';
  }

  lemma {:induction false} HeadingMark(id: string)
    requires IsReviewId(id)
    ensures MarkOf(HEADING, id) == HEAD
  {
    HeadingIsReviews();
    HeadingStrips();
    var rest := HEADING[2..];
    assert rest == " Reviews";
    assert RStrip(rest) == rest && LStrip(rest) == "Reviews" by {
      assert rest[1..] == "Reviews" && LStrip("Reviews") == "Reviews";
    }
    assert forall i :: 0 <= i < |HEADING| ==> !IsDigit(HEADING[i]);
    NamesNeeds(HEADING, id);
  }

  /** A suffix behind a space is a word of its own. */
  lemma {:induction false} NamedAtEnd(line: string, r: string, id: string)
    requires r <= line && |id| < |r| && r[|r| - |id|..] == id && IsSpace(r[|r| - |id| - 1])
    requires |r| < |line| ==> IsSpace(line[|r|])
    ensures Names(line, id)
  {
    var k := |r| - |id|;
    assert line[k..k + |id|] == r[k..];
    assert line[k - 1] == r[k - 1];
    assert NamedAt(line, id, k);
  }

  lemma {:induction false} SuffixOfSuffix(r: string, t: string, id: string)
    requires |id| < |t| <= |r| && r[|r| - |t|..] == t && t[|t| - |id|..] == id
    ensures r[|r| - |id|..] == id && r[|r| - |id| - 1] == t[|t| - |id| - 1]
  {
  }

  lemma {:induction false} NamedAtEnds(line: string, r: string, t: string, id: string)
    requires r <= line && (|r| < |line| ==> IsSpace(line[|r|]))
    requires |t| <= |r| && r[|r| - |t|..] == t
    requires |id| < |t| && t[|t| - |id|..] == id && IsSpace(t[|t| - |id| - 1])
    ensures Names(line, id)
  {
    SuffixOfSuffix(r, t, id);
    NamedAtEnd(line, r, id);
  }

  /** What is left of a text that begins with white space stands behind white space. */
  lemma {:induction false} BehindSpace(u: string, id: string)
    requires u != "" && IsSpace(u[0]) && id == LStrip(u)
    ensures |id| < |u| && u[|u| - |id|..] == id && IsSpace(u[|u| - |id| - 1])
  {
    LStripSuffix(u);
  }

  /** The id of a link stands behind white space at the end of the stripped line. */
  lemma {:induction false} LinkIsSuffix(t: string, u: string, id: string)
    requires t != "" && u == t[1..]
    requires |id| < |u| && u[|u| - |id|..] == id && IsSpace(u[|u| - |id| - 1])
    ensures |id| < |t| && t[|t| - |id|..] == id && IsSpace(t[|t| - |id| - 1])
  {
    SuffixOfSuffix(t, u, id);
  }

  lemma {:induction false} StripEnds(line: string)
    ensures var r, t := RStrip(line), Strip(line);
            && r <= line && (|r| < |line| ==> IsSpace(line[|r|]))
            && |t| <= |r| && r[|r| - |t|..] == t
  {
    RStripRest(line);
    LStripSuffix(RStrip(line));
  }

  /** The stages of stripping a link down to its id. */
  lemma {:induction false} LinkParts(line: string, id: string) returns (r: string, t: string, u: string)
    requires LinkId(line) == Some(id)
    ensures r <= line && (|r| < |line| ==> IsSpace(line[|r|]))
    ensures |t| <= |r| && r[|r| - |t|..] == t && t != "" && u == t[1..]
    ensures |id| < |u| && u[|u| - |id|..] == id && IsSpace(u[|u| - |id| - 1])
  {
    r, t := RStrip(line), Strip(line);
    u := t[1..];
    StripEnds(line);
    BehindSpace(u, id);
  }

  /** A line that links the id names it. */
  lemma {:induction false} LinkNames(line: string, id: string)
    requires LinkId(line) == Some(id)
    ensures Names(line, id)
  {
    var r, t, u := LinkParts(line, id);
    LinkIsSuffix(t, u, id);
    NamedAtEnds(line, r, t, id);
  }

  /** The lines that an accepted append puts the bullet between. */
  ghost function InsertionLine(lines: seq<string>, b: Bounds): (at: nat)
    requires b.start < b.end <= |lines|
    ensures b.start < at <= b.end
  {
    b.start + 1 + |WithoutBlankTail(lines[b.start + 1..b.end])|
  }

  lemma {:induction false} VisibleTail(section: seq<string>)
    ensures WithoutBlankTail(section) != [] ==>
              !IsBlank(WithoutBlankTail(section)[|WithoutBlankTail(section)| - 1])
    decreases |section|
  {
    if section != [] && IsBlank(section[|section| - 1]) {
      VisibleTail(section[..|section| - 1]);
    }
  }

  lemma {:induction false} HeadingsAreVisible(line: string)
    requires IsReviews(line) || IsHeading(line)
    ensures !IsBlank(line)
  {
    if IsBlank(line) {
      BlankIsPlain(line);
    }
  }

  lemma {:induction false} HeadingIsNoTitle(line: string)
    requires IsHeading(line)
    ensures !IsTitle(line)
  {
    var r := RStrip(line);
    assert line[0] == line[..2][0] == '#';
    if r != "" {
      assert r[0] == '#' && LStrip(r) == r;
    }
  }

  lemma {:induction false} VisibleBefore(lines: seq<string>, b: Bounds)
    requires SectionBounds(lines) == Some(b)
    ensures !IsBlank(lines[InsertionLine(lines, b) - 1])
  {
    var section := lines[b.start + 1..b.end];
    var s := WithoutBlankTail(section);
    if s == [] {
      BoundsFound(lines, b);
      HeadingsAreVisible(lines[b.start]);
    } else {
      VisibleTail(section);
      assert s[|s| - 1] == section[|s| - 1] == lines[b.start + |s|];
    }
  }

  lemma {:induction false} BlankBehind(lines: seq<string>, b: Bounds)
    requires b.start < b.end <= |lines|
    ensures forall k :: InsertionLine(lines, b) <= k < b.end ==> IsBlank(lines[k])
  {
    var section := lines[b.start + 1..b.end];
    forall k | InsertionLine(lines, b) <= k < b.end ensures IsBlank(lines[k]) {
      assert section[k - b.start - 1] == lines[k];
    }
  }

  /** What stands around the place of insertion: a visible line before it, blank ones up to the next heading. */
  lemma {:induction false} AroundInsertion(lines: seq<string>, b: Bounds)
    requires SectionBounds(lines) == Some(b)
    ensures var at := InsertionLine(lines, b);
            && !IsBlank(lines[at - 1]) && (forall k :: at <= k < b.end ==> IsBlank(lines[k]))
            && (b.end < |lines| ==> !IsBlank(lines[b.end]) && !IsTitle(lines[b.end]))
  {
    VisibleBefore(lines, b);
    BlankBehind(lines, b);
    if b.end < |lines| {
      BoundsFound(lines, b);
      HeadingsAreVisible(lines[b.end]);
      HeadingIsNoTitle(lines[b.end]);
    }
  }

  lemma {:induction false} NoSpan(marks: seq<Mark>, at: nat, end: nat)
    requires 0 < at <= end <= |marks| && !marks[at - 1].blank && (forall k :: at <= k < end ==> marks[k].blank)
    requires end < |marks| ==> !marks[end].blank && !marks[end].title
    requires forall k :: 0 <= k < |marks| && marks[k].title ==> !marks[k].blank
    ensures !Spans(marks, at)
  {
    forall i: nat, j: nat | i < at <= j ensures !HeadingAt(marks, i, j) {
      assert at - 1 == i || i < at - 1 < j;
      assert j < end || j == end || i < end < j;
    }
  }

  /** No heading of the index spans the place of insertion. */
  lemma {:induction false} NothingSpans(lines: seq<string>, b: Bounds, id: string)
    requires SectionBounds(lines) == Some(b)
    ensures !Spans(Marks(lines, id), InsertionLine(lines, b))
  {
    var marks, at := Marks(lines, id), InsertionLine(lines, b);
    AroundInsertion(lines, b);
    forall k | 0 <= k < |lines| && marks[k].title ensures !marks[k].blank {
      TitleIsVisible(lines[k]);
    }
    NoSpan(marks, at, b.end);
  }

  lemma {:induction false} TitleIsVisible(line: string)
    requires IsTitle(line)
    ensures !IsBlank(line)
  {
  }

  /**
    Where an append puts the link, the index reads: for a new section, when the index sees no Reviews heading
    yet; for an existing one, when the last heading it sees before that place is its first Reviews heading.
   */
  ghost predicate LinkReaches(body: string, id: string) {
    var lines := SplitLines(body);
    match SectionBounds(lines)
    case None => NoHeading(Marks(lines, id))
    case Some(b) => Reaches(Marks(lines, id), InsertionLine(lines, b))
  }

  lemma {:induction false} MarksAtEnd(lines: seq<string>, gap: seq<string>, h: string, e: string, t: string, id: string)
    ensures Marks(lines + gap + [h, e, t], id) ==
            Marks(lines, id) + Marks(gap, id) + [MarkOf(h, id), MarkOf(e, id), MarkOf(t, id)]
  {
    MarksAppend(lines + gap, [h, e, t], id);
    MarksAppend(lines, gap, id);
    assert Marks([h, e, t], id) == [MarkOf(h, id), MarkOf(e, id), MarkOf(t, id)];
  }

  lemma {:induction false} NewSectionIndexed(lines: seq<string>, gap: seq<string>, id: string)
    requires IsReviewId(id) && AllOneLine(lines) && (gap == [] || gap == [""]) && Nameless(Marks(lines, id))
    ensures IndexLinks(Render(lines + gap + [HEADING, "", Bullet(id)]), id) <==> NoHeading(Marks(lines, id))
  {
    WithSectionLines(lines, gap, id);
    RenderedIndexed(lines + gap + [HEADING, "", Bullet(id)], id);
    MarksAtEnd(lines, gap, HEADING, "", Bullet(id), id);
    BlankMark("", id);
    HeadingMark(id);
    BulletMark(id);
    assert gap != [] ==> Marks(gap, id) == [BLANK];
    FreshIndexed(Marks(lines, id), Marks(gap, id));
  }

  lemma {:induction false} MarksAround(a: seq<string>, line: string, c: seq<string>, id: string)
    ensures Marks(a + [line] + c, id) == Marks(a, id) + [MarkOf(line, id)] + Marks(c, id)
    ensures Marks(a + c, id) == Marks(a, id) + Marks(c, id)
  {
    MarksAppend(a + [line], c, id);
    MarksAppend(a, [line], id);
    MarksAppend(a, c, id);
    assert Marks([line], id) == [MarkOf(line, id)];
  }

  lemma {:induction false} BulletIndexed(lines: seq<string>, b: Bounds, id: string)
    requires IsReviewId(id) && AllOneLine(lines) && SectionBounds(lines) == Some(b) && Nameless(Marks(lines, id))
    ensures IndexLinks(Render(WithBullet(lines, b, id)), id) <==> Reaches(Marks(lines, id), InsertionLine(lines, b))
  {
    var at := InsertionLine(lines, b);
    var a, c := lines[..at], lines[at..];
    WithBulletLines(lines, b, id);
    RenderedIndexed(WithBullet(lines, b, id), id);
    assert lines == a + c;
    MarksAround(a, Bullet(id), c, id);
    BulletMark(id);
    NothingSpans(lines, b, id);
    InsertedIndexed(Marks(a, id), LINK, Marks(c, id));
  }

  /**
    After an append of an id that the body does not name yet, the integrity index reads the id from the body
    if and only if the two heading rules lead to the same section.  Where they do not, every later operation
    on the review is refused for want of its backlink.
   */
  lemma {:induction false} AppendIsIndexed(body: string, id: string)
    requires IsReviewId(id) && forall line :: line in SplitLines(body) ==> !Names(line, id)
    ensures IndexLinks(AppendLink(body, id).text, id) <==> LinkReaches(body, id)
  {
    var lines := SplitLines(body);
    SplitLinesAreLines(body);
    match SectionBounds(lines)
    case None =>
      NewSectionIndexed(lines, if lines != [] && !IsBlank(lines[|lines| - 1]) then [""] else [], id);
    case Some(b) =>
      NamelessLinksNot(lines[b.start + 1..b.end], id);
      BulletIndexed(lines, b, id);
  }

  lemma {:induction false} NamelessLinksNot(section: seq<string>, id: string)
    requires forall line :: line in section ==> !Names(line, id)
    ensures !MentionsId(section, id)
  {
    forall j | 0 <= j < |section| ensures LinkId(section[j]) != Some(id) {
      if LinkId(section[j]) == Some(id) {
        LinkNames(section[j], id);
      }
    }
  }

  const TWO_SPACES := "##  Reviews"

  lemma {:induction false} TwoSpacesTitle()
    ensures IsTitle(TWO_SPACES[2..])
  {
    var rest := TWO_SPACES[2..];
    assert rest == "  Reviews" && RStrip(rest) == rest;
    assert rest[1..] == " Reviews" && rest[1..][1..] == "Reviews";
    assert LStrip("Reviews") == "Reviews";
    assert LStrip(rest) == LStrip(rest[1..]) == LStrip(rest[1..][1..]);
  }

  lemma {:induction false} TwoSpacesOther()
    ensures !IsReviews(TWO_SPACES)
  {
    var t := TWO_SPACES;
    assert t[0] == '#' && t[|t| - 1] == 's';
    assert RStrip(t) == t && LStrip(t) == t && |t| == |HEADING| + 1;
  }

  lemma {:induction false} TwoSpacesPlain(id: string)
    requires IsReviewId(id)
    ensures !Names(TWO_SPACES, id) && OneLine(TWO_SPACES)
  {
    assert forall i :: 0 <= i < |TWO_SPACES| ==> !IsDigit(TWO_SPACES[i]);
    NamesNeeds(TWO_SPACES, id);
  }

  /** A heading with two spaces is a Reviews heading to the index only: a new section below it is not read. */
  lemma {:induction false} TwoSpacesHide(id: string)
    requires IsReviewId(id)
    ensures var body := TWO_SPACES + "\n";
            && (forall line :: line in SplitLines(body) ==> !Names(line, id))
            && !LinkReaches(body, id)
  {
    TwoSpacesPlain(id);
    TwoSpacesTitle();
    TwoSpacesOther();
    SplitOne(TWO_SPACES);
    assert HeadingAt(Marks([TWO_SPACES], id), 0, 0);
  }
}
