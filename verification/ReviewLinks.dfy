/** The Reviews section of an item body (planning/item_store.py): adding and removing one review id. */
module ReviewLinks {
  import opened Wrappers
  import opened Text
  import opened RecordIds
  import opened Sequences

  // ---------------------------------------------------------------- recognizing lines

  function LowerChar(c: char): char {
    if 'A' <= c <= 'Z' then 'a' + (c - 'A') else c
  }

  predicate SameButCase(a: string, b: string) {
    |a| == |b| && (a == "" || (LowerChar(a[0]) == LowerChar(b[0]) && SameButCase(a[1..], b[1..])))
  }

  const HEADING := "## Reviews"

  predicate IsReviews(line: string) {
    SameButCase(Strip(line), HEADING)
  }

  /** `^##\s+(.+?)\s*$` */
  predicate IsHeading(line: string) {
    |line| >= 4 && line[..2] == "##" && IsSpace(line[2])
  }

  /** `^\s*[-+*]\s+(RV\d+)\s*$` */
  function LinkId(line: string): Option<string> {
    var t := Strip(line);
    if |t| > 1 && (t[0] == '-' || t[0] == '+' || t[0] == '*') && IsSpace(t[1]) && IsReviewId(LStrip(t[1..])) then
      Some(LStrip(t[1..]))
    else None
  }

  function Bullet(id: string): string {
    "- " + id
  }

  lemma {:induction false} BulletLinks(id: string)
    requires IsReviewId(id)
    ensures LinkId(Bullet(id)) == Some(id) && !IsHeading(Bullet(id)) && !IsReviews(Bullet(id)) &&
              !IsBlank(Bullet(id)) && OneLine(Bullet(id))
  {
    var b := Bullet(id);
    assert b[|b| - 1] == id[|id| - 1];
    assert RStrip(b) == b && LStrip(b) == b;
    assert b[1..] == " " + id && (" " + id)[1..] == id;
    assert LStrip(id) == id;
    assert b[..2] == "- ";
    assert !SameButCase(b, HEADING);
  }

  lemma {:induction false} SameAsItself(s: string)
    ensures SameButCase(s, s)
  {
    if s != "" {
      SameAsItself(s[1..]);
    }
  }

  lemma {:induction false} HeadingStrips()
    ensures RStrip(HEADING) == HEADING && Strip(HEADING) == HEADING
  {
    assert HEADING[0] == '#' && HEADING[|HEADING| - 1] == 's';
  }

  lemma {:induction false} HeadingIsLine()
    ensures OneLine(HEADING)
  {
  }

  lemma {:induction false} HeadingIsReviews()
    ensures IsReviews(HEADING) && OneLine(HEADING) && !IsBlank(HEADING)
  {
    HeadingStrips();
    HeadingIsLine();
    SameAsItself(HEADING);
  }

  lemma {:induction false} BlankIsPlain(line: string)
    requires IsBlank(line)
    ensures !IsReviews(line) && !IsHeading(line) && LinkId(line) == None
  {
    BlankIsSpaces(line);
    assert Strip(line) == "";
    assert |line| > 0 ==> IsSpace(line[0]);
    if |line| >= 4 {
      assert line[..2][0] == line[0];
    }
  }

  lemma {:induction false} StrippedIsSame(line: string)
    ensures IsReviews(RStrip(line)) == IsReviews(line) && LinkId(RStrip(line)) == LinkId(line)
    ensures LinkId(line).Some? ==> !IsHeading(line) && !IsHeading(RStrip(line))
  {
    RStripTwice(line);
    if IsHeading(line) {
      assert line[0] == '#' by { assert line[..2][0] == '#'; }
      HashIsNoBullet(line);
    }
    if IsHeading(RStrip(line)) {
      assert RStrip(line)[0] == '#' by { assert RStrip(line)[..2][0] == '#'; }
      HashIsNoBullet(RStrip(line));
    }
  }

  lemma {:induction false} HashIsNoBullet(line: string)
    requires line != "" && line[0] == '#'
    ensures LinkId(line) == None
  {
    var r := RStrip(line);
    if r != "" {
      assert r[0] == '#';
      assert LStrip(r) == r;
    }
  }

  // ---------------------------------------------------------------- which ids a body links

  /** What a line is to the Reviews section. */
  datatype Kind = Kind(reviews: bool, heading: bool, link: Option<string>)

  const PLAIN := Kind(false, false, None)

  function KindOf(line: string): Kind {
    Kind(IsReviews(line), IsHeading(line), LinkId(line))
  }

  function Kinds(lines: seq<string>): (kinds: seq<Kind>)
    ensures |kinds| == |lines| && forall i :: 0 <= i < |lines| ==> kinds[i] == KindOf(lines[i])
  {
    seq(|lines|, i requires 0 <= i < |lines| => KindOf(lines[i]))
  }

  lemma {:induction false} KindsAppend(a: seq<string>, b: seq<string>)
    ensures Kinds(a + b) == Kinds(a) + Kinds(b)
  {
  }

  /** Line `i` lies in the section that the first Reviews heading, line `s`, opens. */
  ghost predicate InSection(lines: seq<Kind>, s: nat, i: nat) {
    && s < i < |lines| && lines[s].reviews
    && (forall k :: 0 <= k < s ==> !lines[k].reviews)
    && (forall k :: s < k <= i ==> !lines[k].heading)
  }

  ghost predicate Links(lines: seq<Kind>, id: string) {
    exists s: nat, i: nat :: InSection(lines, s, i) && lines[i].link == Some(id)
  }

  /** The review ids of a body. */
  ghost predicate BodyLinks(body: string, id: string) {
    Links(Kinds(SplitLines(body)), id)
  }

  /** Lines taken apart at the first Reviews heading and at the heading after it. */
  ghost predicate Apart(lines: seq<Kind>, a: seq<Kind>, h: Kind, s: seq<Kind>, r: seq<Kind>) {
    && lines == a + [h] + s + r && h.reviews
    && (forall k :: 0 <= k < |a| ==> !a[k].reviews)
    && (forall k :: 0 <= k < |s| ==> !s[k].heading)
    && (r == [] || r[0].heading)
  }

  ghost predicate Mentions(section: seq<Kind>, id: string) {
    exists j :: 0 <= j < |section| && section[j].link == Some(id)
  }

  lemma {:induction false} ApartLinks(lines: seq<Kind>, a: seq<Kind>, h: Kind, s: seq<Kind>, r: seq<Kind>, id: string)
    requires Apart(lines, a, h, s, r)
    ensures Links(lines, id) <==> Mentions(s, id)
  {
    if j :| 0 <= j < |s| && s[j].link == Some(id) {
      assert lines[|a|] == h && lines[|a| + 1 + j] == s[j];
      forall k | |a| < k <= |a| + 1 + j ensures !lines[k].heading {
        assert lines[k] == s[k - |a| - 1];
      }
      assert InSection(lines, |a|, |a| + 1 + j);
    }
    assert forall k :: 0 <= k < |a| ==> lines[k] == a[k];
    assert lines[|a|] == h && (r != [] ==> lines[|a| + 1 + |s|] == r[0]);
    if n: nat, i: nat :| InSection(lines, n, i) && lines[i].link == Some(id) {
      assert n == |a| && i <= |a| + |s|;
      assert lines[i] == s[i - |a| - 1];
    }
  }

  /** The last line may change between two kinds that differ only in being a heading, if it is no link then. */
  lemma {:induction false} LastLine(lines: seq<Kind>, x: Kind, y: Kind, id: string)
    requires x.reviews == y.reviews && x.link == y.link && (y.link.Some? ==> !y.heading)
    requires Links(lines + [x], id)
    ensures Links(lines + [y], id)
  {
    var was, now := lines + [x], lines + [y];
    var s: nat, i: nat :| InSection(was, s, i) && was[i].link == Some(id);
    assert forall k :: 0 <= k < |lines| ==> now[k] == was[k];
    assert now[|lines|] == y && was[|lines|] == x;
    assert now[i].link == was[i].link;
    forall k | s < k <= i ensures !now[k].heading {
      assert !was[k].heading;
    }
    assert InSection(now, s, i);
  }

  lemma {:induction false} LastPlain(lines: seq<Kind>, id: string)
    ensures Links(lines + [PLAIN], id) <==> Links(lines, id)
  {
    var longer := lines + [PLAIN];
    assert forall k :: 0 <= k < |lines| ==> longer[k] == lines[k];
    if s: nat, i: nat :| InSection(longer, s, i) && longer[i].link == Some(id) {
      assert InSection(lines, s, i);
    }
    if s: nat, i: nat :| InSection(lines, s, i) && lines[i].link == Some(id) {
      assert InSection(longer, s, i);
    }
  }

  lemma {:induction false} LastTrimmed(init: seq<string>, last: string, id: string)
    ensures Links(Kinds(init + [RStrip(last)]), id) <==> Links(Kinds(init + [last]), id)
  {
    StrippedIsSame(last);
    KindsAppend(init, [last]);
    KindsAppend(init, [RStrip(last)]);
    var x, y := KindOf(last), KindOf(RStrip(last));
    assert Kinds([last]) == [x] && Kinds([RStrip(last)]) == [y];
    if Links(Kinds(init) + [x], id) { LastLine(Kinds(init), x, y, id); }
    if Links(Kinds(init) + [y], id) { LastLine(Kinds(init), y, x, id); }
  }

  /** Trimming the end of a body does not change its links. */
  lemma {:induction false} TrimmedLinks(lines: seq<string>, id: string)
    ensures Links(Kinds(TrimEnd(lines)), id) <==> Links(Kinds(lines), id)
    decreases |lines|
  {
    if lines != [] {
      var init, last := lines[..|lines| - 1], lines[|lines| - 1];
      assert lines == init + [last];
      if IsBlank(last) {
        BlankIsPlain(last);
        KindsAppend(init, [last]);
        assert Kinds([last]) == [PLAIN];
        LastPlain(Kinds(init), id);
        TrimmedLinks(init, id);
      } else {
        LastTrimmed(init, last, id);
      }
    }
  }

  lemma {:induction false} RenderedLinks(lines: seq<string>, id: string)
    requires AllOneLine(lines)
    ensures BodyLinks(Render(lines), id) <==> Links(Kinds(lines), id)
  {
    SplitRendered(lines);
    TrimmedLinks(lines, id);
  }

  // ---------------------------------------------------------------- the edits

  function NextReviews(lines: seq<string>, i: nat): (n: nat)
    requires i <= |lines|
    ensures i <= n <= |lines| && (n < |lines| ==> IsReviews(lines[n])) && forall k :: i <= k < n ==>
              !IsReviews(lines[k])
    decreases |lines| - i
  {
    if i == |lines| || IsReviews(lines[i]) then i else NextReviews(lines, i + 1)
  }

  function NextHeading(lines: seq<string>, i: nat): (n: nat)
    requires i <= |lines|
    ensures i <= n <= |lines| && (n < |lines| ==> IsHeading(lines[n])) && forall k :: i <= k < n ==>
              !IsHeading(lines[k])
    decreases |lines| - i
  {
    if i == |lines| || IsHeading(lines[i]) then i else NextHeading(lines, i + 1)
  }

  /** The lines between a Reviews heading and the next heading. */
  datatype Bounds = Bounds(start: nat, end: nat)

  function SectionBounds(lines: seq<string>): (b: Option<Bounds>)
    ensures b.None? ==> forall k :: 0 <= k < |lines| ==> !IsReviews(lines[k])
    ensures b.Some? ==> b.value.start < b.value.end <= |lines|
  {
    var start := NextReviews(lines, 0);
    if start == |lines| then None else Some(Bounds(start, NextHeading(lines, start + 1)))
  }

  method FindBounds(lines: seq<string>) returns (b: Option<Bounds>)
    ensures b == SectionBounds(lines)
  {
    for i := 0 to |lines|
      invariant NextReviews(lines, 0) == NextReviews(lines, i)
    {
      if IsReviews(lines[i]) {
        for n := i + 1 to |lines|
          invariant NextHeading(lines, i + 1) == NextHeading(lines, n)
        {
          if IsHeading(lines[n]) { return Some(Bounds(i, n)); }
        }
        return Some(Bounds(i, |lines|));
      }
    }
    return None;
  }

  function WithoutBlankTail(section: seq<string>): (r: seq<string>)
    ensures r <= section && forall k :: |r| <= k < |section| ==> IsBlank(section[k])
  {
    if section != [] && IsBlank(section[|section| - 1]) then WithoutBlankTail(section[..|section| - 1]) else section
  }

  predicate MentionsId(section: seq<string>, id: string) {
    exists j :: 0 <= j < |section| && LinkId(section[j]) == Some(id)
  }

  datatype Edit = Edit(text: string, changed: bool)

  /** The lines with one more bullet after the last non-blank line of the section. */
  function WithBullet(lines: seq<string>, b: Bounds, id: string): seq<string>
    requires b.start < b.end <= |lines|
  {
    var at := b.start + 1 + |WithoutBlankTail(lines[b.start + 1..b.end])|;
    lines[..at] + [Bullet(id)] + lines[at..]
  }

  /** The lines with a new section at the end. */
  function WithSection(lines: seq<string>, id: string): seq<string> {
    lines + (if lines != [] && !IsBlank(lines[|lines| - 1]) then [""] else []) + [HEADING, "", Bullet(id)]
  }

  function AppendLink(body: string, id: string): Edit {
    var lines := SplitLines(body);
    match SectionBounds(lines)
    case None => Edit(Render(WithSection(lines, id)), true)
    case Some(b) => AppendAt(body, lines, b, id)
  }

  function AppendAt(body: string, lines: seq<string>, b: Bounds, id: string): Edit
    requires b.start < b.end <= |lines|
  {
    if MentionsId(lines[b.start + 1..b.end], id) then
      Edit(body, false)
    else Edit(Render(WithBullet(lines, b, id)), true)
  }

  method InsertionPoint(lines: seq<string>, b: Bounds) returns (insertion: nat)
    requires b.start < b.end <= |lines|
    ensures insertion == b.start + 1 + |WithoutBlankTail(lines[b.start + 1..b.end])|
  {
    insertion := b.end;
    while insertion > b.start + 1 && IsBlank(lines[insertion - 1])
      invariant b.start + 1 <= insertion <= b.end
      invariant WithoutBlankTail(lines[b.start + 1..b.end]) == WithoutBlankTail(lines[b.start + 1..insertion])
    {
      assert lines[b.start + 1..insertion][..insertion - b.start - 2] == lines[b.start + 1..insertion - 1];
      insertion := insertion - 1;
    }
  }

  method LinksTo(section: seq<string>, id: string) returns (found: bool)
    ensures found == MentionsId(section, id)
  {
    for n := 0 to |section|
      invariant forall k :: 0 <= k < n ==> LinkId(section[k]) != Some(id)
    {
      if LinkId(section[n]) == Some(id) { return true; }
    }
    return false;
  }

  method InsertBullet(lines: seq<string>, b: Bounds, id: string) returns (next: seq<string>)
    requires b.start < b.end <= |lines|
    ensures next == WithBullet(lines, b, id)
  {
    var insertion := InsertionPoint(lines, b);
    next := lines[..insertion] + [Bullet(id)] + lines[insertion..];
  }

  method AppendReviewLink(body: string, id: string) returns (r: Edit)
    ensures r == AppendLink(body, id)
  {
    var lines := SplitLines(body);
    var bounds := FindBounds(lines);
    if bounds.None? { return Edit(Render(WithSection(lines, id)), true); }
    var b := bounds.value;
    var found := LinksTo(lines[b.start + 1..b.end], id);
    if found { return Edit(body, false); }
    var next := InsertBullet(lines, b, id);
    return Edit(Render(next), true);
  }

  function WithoutLink(section: seq<string>, id: string): seq<string> {
    if section == [] then []
    else
      WithoutLink(section[..|section| - 1], id) +
      if LinkId(section[|section| - 1]) == Some(id) then [] else [section[|section| - 1]]
  }

  function DropBlankHead(lines: seq<string>): seq<string> {
    if lines != [] && IsBlank(lines[0]) then DropBlankHead(lines[1..]) else lines
  }

  predicate AllBlank(lines: seq<string>) {
    forall k :: 0 <= k < |lines| ==> IsBlank(lines[k])
  }

  /** The lines with the section replaced, or dropped when nothing visible is left in it. */
  function WithSectionReplaced(lines: seq<string>, b: Bounds, kept: seq<string>): seq<string>
    requires b.start < b.end <= |lines|
  {
    if AllBlank(kept) then
      lines[..b.start] + DropBlankHead(lines[b.end..])
    else lines[..b.start + 1] + kept + lines[b.end..]
  }

  function RemoveLink(body: string, id: string): Edit {
    var lines := SplitLines(body);
    match SectionBounds(lines)
    case None => Edit(body, false)
    case Some(b) => RemoveAt(body, lines, b, WithoutLink(lines[b.start + 1..b.end], id))
  }

  function RemoveAt(body: string, lines: seq<string>, b: Bounds, kept: seq<string>): Edit
    requires b.start < b.end <= |lines|
  {
    if |kept| == b.end - b.start - 1 then Edit(body, false) else Edit(Render(WithSectionReplaced(lines, b, kept)), true)
  }

  method Filter(section: seq<string>, id: string) returns (kept: seq<string>)
    ensures kept == WithoutLink(section, id)
  {
    kept := [];
    for n := 0 to |section|
      invariant kept == WithoutLink(section[..n], id)
    {
      assert section[..n + 1][..n] == section[..n];
      if LinkId(section[n]) != Some(id) {
        kept := kept + [section[n]];
      }
    }
    assert section[..|section|] == section;
  }

  method RemoveReviewLink(body: string, id: string) returns (r: Edit)
    ensures r == RemoveLink(body, id)
  {
    var lines := SplitLines(body);
    var bounds := FindBounds(lines);
    if bounds.None? { return Edit(body, false); }
    var b := bounds.value;
    var kept := Filter(lines[b.start + 1..b.end], id);
    if |kept| == b.end - b.start - 1 { return Edit(body, false); }
    if AllBlank(kept) {
      var after := lines[b.end..];
      while after != [] && IsBlank(after[0])
        invariant DropBlankHead(after) == DropBlankHead(lines[b.end..])
      {
        after := after[1..];
      }
      return Edit(Render(lines[..b.start] + after), true);
    }
    return Edit(Render(lines[..b.start + 1] + kept + lines[b.end..]), true);
  }

  // ---------------------------------------------------------------- what the edits do

  lemma {:induction false} KindsApart(a: seq<string>, h: string, s: seq<string>, r: seq<string>)
    ensures Kinds(a + [h] + s + r) == Kinds(a) + [KindOf(h)] + Kinds(s) + Kinds(r)
  {
    KindsAppend(a + [h] + s, r);
    KindsAppend(a + [h], s);
    KindsAppend(a, [h]);
    assert Kinds([h]) == [KindOf(h)];
  }

  lemma {:induction false} BoundsFound(lines: seq<string>, b: Bounds)
    requires SectionBounds(lines) == Some(b)
    ensures b.start < b.end <= |lines| && IsReviews(lines[b.start]) && (b.end < |lines| ==> IsHeading(lines[b.end]))
    ensures forall k :: 0 <= k < b.start ==> !IsReviews(lines[k])
    ensures forall k :: b.start < k < b.end ==> !IsHeading(lines[k])
  {
  }

  lemma {:induction false} ApartKinds(a: seq<string>, h: string, s: seq<string>, r: seq<string>)
    requires IsReviews(h) && (r == [] || IsHeading(r[0]))
    requires (forall k :: 0 <= k < |a| ==> !IsReviews(a[k])) && (forall k :: 0 <= k < |s| ==> !IsHeading(s[k]))
    ensures Apart(Kinds(a + [h] + s + r), Kinds(a), KindOf(h), Kinds(s), Kinds(r))
  {
    KindsApart(a, h, s, r);
  }

  lemma {:induction false} BoundsApart(lines: seq<string>, b: Bounds)
    requires SectionBounds(lines) == Some(b)
    ensures Apart(Kinds(lines), Kinds(lines[..b.start]), KindOf(lines[b.start]), Kinds(lines[b.start + 1..b.end]),
              Kinds(lines[b.end..]))
  {
    BoundsFound(lines, b);
    Slices(lines, b.start, b.end);
    ApartKinds(lines[..b.start], lines[b.start], lines[b.start + 1..b.end], lines[b.end..]);
  }

  lemma {:induction false} NoHeadingNoLinks(lines: seq<string>, id: string)
    requires SectionBounds(lines) == None
    ensures !Links(Kinds(lines), id)
  {
  }

  lemma {:induction false} MentionedLinks(lines: seq<string>, b: Bounds, id: string)
    requires SectionBounds(lines) == Some(b)
    ensures Links(Kinds(lines), id) <==> Mentions(Kinds(lines[b.start + 1..b.end]), id)
  {
    BoundsApart(lines, b);
    ApartLinks(Kinds(lines), Kinds(lines[..b.start]), KindOf(lines[b.start]), Kinds(lines[b.start + 1..b.end]),
        Kinds(lines[b.end..]), id);
  }

  lemma {:induction false} MentionsIsMentionsId(section: seq<string>, id: string)
    ensures Mentions(Kinds(section), id) <==> MentionsId(section, id)
  {
    if MentionsId(section, id) {
      var j :| 0 <= j < |section| && LinkId(section[j]) == Some(id);
      assert Kinds(section)[j].link == Some(id);
    }
  }

  lemma {:induction false} InsertedMentions(s: seq<Kind>, k: Kind, t: seq<Kind>, id: string, x: string)
    requires k.link == Some(id)
    ensures Mentions(s + [k] + t, x) <==> Mentions(s + t, x) || x == id
  {
    var longer, all := s + [k] + t, s + t;
    assert longer[|s|] == k;
    if j :| 0 <= j < |all| && all[j].link == Some(x) {
      assert longer[if j < |s| then j else j + 1] == all[j];
    }
    if j :| 0 <= j < |longer| && longer[j].link == Some(x) && j != |s| {
      assert all[if j < |s| then j else j - 1] == longer[j];
    }
  }

  lemma {:induction false} InsertedLinks(
    a: seq<Kind>, h: Kind, s: seq<Kind>, k: Kind, t: seq<Kind>, r: seq<Kind>, id: string, x: string)
    requires Apart(a + [h] + (s + t) + r, a, h, s + t, r) && k == Kind(false, false, Some(id))
    ensures Links(a + [h] + (s + [k] + t) + r, x) <==> Links(a + [h] + (s + t) + r, x) || x == id
  {
    var was, now := s + t, s + [k] + t;
    forall j | 0 <= j < |now| ensures !now[j].heading {
      assert now[j] == if j < |s| then was[j] else if j == |s| then k else was[j - 1];
    }
    ApartLinks(a + [h] + was + r, a, h, was, r, x);
    ApartLinks(a + [h] + now + r, a, h, now, r, x);
    InsertedMentions(s, k, t, id, x);
  }

  lemma {:induction false} Spliced(a: seq<string>, s: seq<string>, k: seq<string>, t: seq<string>, r: seq<string>)
    ensures a + (s + t) + r == (a + s) + (t + r)
    ensures a + (s + k + t) + r == (a + s) + k + (t + r)
  {
  }

  /** The bullet lands at the end of the visible part of the section. */
  lemma {:induction false} BulletApart(lines: seq<string>, b: Bounds, id: string, s: seq<string>, t: seq<string>)
    requires b.start < b.end <= |lines| && s == WithoutBlankTail(lines[b.start + 1..b.end])
    requires lines[b.start + 1..b.end] == s + t
    ensures WithBullet(lines, b, id) == lines[..b.start] + [lines[b.start]] + (s + [Bullet(id)] + t) + lines[b.end..]
  {
    var a, r := lines[..b.start] + [lines[b.start]], lines[b.end..];
    Slices(lines, b.start, b.end);
    Spliced(a, s, [Bullet(id)], t, r);
    CutAt(a + s, t + r);
  }

  lemma {:induction false} BulletKinds(
    a: seq<string>, h: string, s: seq<string>, k: string, t: seq<string>, r: seq<string>)
    ensures Kinds(a + [h] + (s + [k] + t) + r) ==
              Kinds(a) + [KindOf(h)] + (Kinds(s) + [KindOf(k)] + Kinds(t)) + Kinds(r)
  {
    KindsApart(a, h, s + [k] + t, r);
    KindsAppend(s + [k], t);
    KindsAppend(s, [k]);
    assert Kinds([k]) == [KindOf(k)];
  }

  lemma {:induction false} WithBulletLinks(lines: seq<string>, b: Bounds, id: string, x: string)
    requires SectionBounds(lines) == Some(b) && IsReviewId(id)
    ensures Links(Kinds(WithBullet(lines, b, id)), x) <==> Links(Kinds(lines), x) || x == id
  {
    var a, h, section, r := lines[..b.start], lines[b.start], lines[b.start + 1..b.end], lines[b.end..];
    var s := WithoutBlankTail(section);
    var t := section[|s|..];
    assert section == s + t;
    BoundsApart(lines, b);
    BulletApart(lines, b, id, s, t);
    BulletKinds(a, h, s, Bullet(id), t, r);
    KindsAppend(s, t);
    BulletLinks(id);
    InsertedLinks(Kinds(a), KindOf(h), Kinds(s), KindOf(Bullet(id)), Kinds(t), Kinds(r), id, x);
  }

  lemma {:induction false} WithBulletLines(lines: seq<string>, b: Bounds, id: string)
    requires b.start < b.end <= |lines| && AllOneLine(lines) && IsReviewId(id)
    ensures AllOneLine(WithBullet(lines, b, id))
  {
    BulletLinks(id);
  }

  lemma {:induction false} FreshLines(lines: seq<string>, gap: seq<string>, h: string, e: string, t: string)
    ensures Kinds(lines + gap + [h, e, t]) == (Kinds(lines) + Kinds(gap)) + [KindOf(h)] + [KindOf(e), KindOf(t)] + []
  {
    assert lines + gap + [h, e, t] == (lines + gap) + [h] + [e, t] + [];
    KindsApart(lines + gap, h, [e, t], []);
    KindsAppend(lines, gap);
    assert Kinds([e, t]) == [KindOf(e), KindOf(t)];
  }

  lemma {:induction false} FreshSectionLinks(lines: seq<string>, gap: seq<string>, id: string, x: string)
    requires (forall k :: 0 <= k < |lines| ==> !KindOf(lines[k]).reviews) && (gap == [] || gap == [""]) &&
              IsReviewId(id)
    ensures Links(Kinds(lines + gap + [HEADING, "", Bullet(id)]), x) <==> x == id
  {
    BulletLinks(id);
    HeadingIsReviews();
    BlankIsPlain("");
    FreshLines(lines, gap, HEADING, "", Bullet(id));
    FreshKinds(Kinds(lines), Kinds(gap), KindOf(HEADING), KindOf(Bullet(id)), id, x);
  }

  lemma {:induction false} FreshKinds(lines: seq<Kind>, gap: seq<Kind>, h: Kind, k: Kind, id: string, x: string)
    requires (forall i :: 0 <= i < |lines| ==> !lines[i].reviews) && (forall i :: 0 <= i < |gap| ==> gap[i] == PLAIN)
    requires h.reviews && k == Kind(false, false, Some(id))
    ensures Links((lines + gap) + [h] + [PLAIN, k] + [], x) <==> x == id
  {
    ApartLinks((lines + gap) + [h] + [PLAIN, k] + [], lines + gap, h, [PLAIN, k], [], x);
    assert [PLAIN, k][1] == k;
  }

  lemma {:induction false} AppendFresh(lines: seq<string>, id: string, x: string)
    requires SectionBounds(lines) == None && AllOneLine(lines) && IsReviewId(id)
    ensures BodyLinks(Render(WithSection(lines, id)), x) <==> x == id
  {
    var gap := if lines != [] && !IsBlank(lines[|lines| - 1]) then [""] else [];
    FreshSectionLinks(lines, gap, id, x);
    WithSectionLines(lines, gap, id);
    RenderedLinks(WithSection(lines, id), x);
  }

  lemma {:induction false} LinesAtEnd(lines: seq<string>, gap: seq<string>, h: string, e: string, t: string)
    requires AllOneLine(lines) && AllOneLine(gap) && OneLine(h) && OneLine(e) && OneLine(t)
    ensures AllOneLine(lines + gap + [h, e, t])
  {
  }

  lemma {:induction false} WithSectionLines(lines: seq<string>, gap: seq<string>, id: string)
    requires AllOneLine(lines) && AllOneLine(gap) && IsReviewId(id)
    ensures AllOneLine(lines + gap + [HEADING, "", Bullet(id)])
  {
    BulletLinks(id);
    HeadingIsLine();
    LinesAtEnd(lines, gap, HEADING, "", Bullet(id));
  }

  lemma {:induction false} LinkedInSection(lines: seq<string>, b: Bounds, id: string)
    requires SectionBounds(lines) == Some(b)
    ensures MentionsId(lines[b.start + 1..b.end], id) <==> Links(Kinds(lines), id)
  {
    MentionedLinks(lines, b, id);
    MentionsIsMentionsId(lines[b.start + 1..b.end], id);
  }

  lemma {:induction false} BulletBody(lines: seq<string>, b: Bounds, id: string, x: string)
    requires IsReviewId(id) && AllOneLine(lines) && SectionBounds(lines) == Some(b)
    ensures BodyLinks(Render(WithBullet(lines, b, id)), x) <==> Links(Kinds(lines), x) || x == id
  {
    WithBulletLinks(lines, b, id, x);
    WithBulletLines(lines, b, id);
    RenderedLinks(WithBullet(lines, b, id), x);
  }

  lemma {:induction false} AppendToSection(body: string, lines: seq<string>, b: Bounds, id: string, x: string)
    requires IsReviewId(id) && lines == SplitLines(body) && AllOneLine(lines) && SectionBounds(lines) == Some(b)
    ensures BodyLinks(AppendAt(body, lines, b, id).text, x) <==> Links(Kinds(lines), x) || x == id
  {
    LinkedInSection(lines, b, id);
    BulletBody(lines, b, id, x);
  }

  /** Appending an id adds exactly that id. */
  lemma {:induction false} AppendAdds(body: string, id: string, x: string)
    requires IsReviewId(id)
    ensures BodyLinks(AppendLink(body, id).text, x) <==> BodyLinks(body, x) || x == id
  {
    var lines := SplitLines(body);
    SplitLinesAreLines(body);
    match SectionBounds(lines)
    case None =>
      NoHeadingNoLinks(lines, x);
      AppendFresh(lines, id, x);
    case Some(b) => AppendToSection(body, lines, b, id, x);
  }

  /** Appending the same id again changes nothing. */
  lemma {:induction false} AppendTwice(body: string, id: string)
    requires IsReviewId(id)
    ensures AppendLink(AppendLink(body, id).text, id) == Edit(AppendLink(body, id).text, false)
  {
    AppendAdds(body, id, id);
    var lines := SplitLines(AppendLink(body, id).text);
    match SectionBounds(lines)
    case None => NoHeadingNoLinks(lines, id);
    case Some(b) => LinkedInSection(lines, b, id);
  }

  /** A section without the links to one id. */
  ghost function WithoutKind(section: seq<Kind>, id: string): seq<Kind> {
    if section == [] then []
    else
      WithoutKind(section[..|section| - 1], id) +
      if section[|section| - 1].link == Some(id) then [] else [section[|section| - 1]]
  }

  lemma {:induction false} WithoutKinds(section: seq<string>, id: string)
    ensures Kinds(WithoutLink(section, id)) == WithoutKind(Kinds(section), id)
    decreases |section|
  {
    if section != [] {
      var init, last := section[..|section| - 1], section[|section| - 1];
      WithoutKinds(init, id);
      assert Kinds(section)[..|section| - 1] == Kinds(init);
      KindsAppend(WithoutLink(init, id), if LinkId(last) == Some(id) then [] else [last]);
    }
  }

  lemma {:induction false} WithoutKindIn(section: seq<Kind>, id: string, k: Kind)
    ensures k in WithoutKind(section, id) <==> k in section && k.link != Some(id)
    decreases |section|
  {
    if section != [] {
      var init, last := section[..|section| - 1], section[|section| - 1];
      assert section == init + [last];
      WithoutKindIn(init, id, k);
    }
  }

  lemma {:induction false} WithoutKindAll(section: seq<Kind>, id: string)
    ensures |WithoutKind(section, id)| <= |section|
    ensures |WithoutKind(section, id)| == |section| <==> !Mentions(section, id)
    decreases |section|
  {
    if section != [] {
      var init, last := section[..|section| - 1], section[|section| - 1];
      WithoutKindAll(init, id);
      if Mentions(init, id) {
        var j :| 0 <= j < |init| && init[j].link == Some(id);
        assert section[j] == init[j];
      }
    }
  }

  lemma {:induction false} WithoutKindMentions(section: seq<Kind>, id: string, x: string)
    ensures Mentions(WithoutKind(section, id), x) <==> Mentions(section, x) && x != id
  {
    var kept := WithoutKind(section, id);
    if j :| 0 <= j < |kept| && kept[j].link == Some(x) {
      WithoutKindIn(section, id, kept[j]);
      var i :| 0 <= i < |section| && section[i] == kept[j];
    }
    if j :| 0 <= j < |section| && section[j].link == Some(x) && x != id {
      WithoutKindIn(section, id, section[j]);
      var i :| 0 <= i < |kept| && kept[i] == section[j];
    }
  }

  lemma {:induction false} WithoutLinkLines(section: seq<string>, id: string)
    requires AllOneLine(section)
    ensures AllOneLine(WithoutLink(section, id))
    decreases |section|
  {
    if section != [] {
      WithoutLinkLines(section[..|section| - 1], id);
    }
  }

  ghost predicate OneReviewsHeading(lines: seq<Kind>) {
    forall i, j :: 0 <= i < j < |lines| ==> !(lines[i].reviews && lines[j].reviews)
  }

  lemma {:induction false} BlankMentionsNothing(section: seq<string>, x: string)
    requires AllBlank(section)
    ensures !Mentions(Kinds(section), x)
  {
    forall k | 0 <= k < |section| ensures KindOf(section[k]) == PLAIN {
      BlankIsPlain(section[k]);
    }
  }

  lemma {:induction false} HeadingIsNotBlank(line: string)
    requires IsHeading(line)
    ensures !IsBlank(line)
  {
    if IsBlank(line) {
      BlankIsPlain(line);
    }
  }

  lemma {:induction false} DropsNothing(lines: seq<string>, b: Bounds)
    requires SectionBounds(lines) == Some(b)
    ensures DropBlankHead(lines[b.end..]) == lines[b.end..]
  {
    if b.end < |lines| {
      HeadingIsNotBlank(lines[b.end]);
    }
  }

  lemma {:induction false} KeptLinks(
    lines: seq<Kind>, a: seq<Kind>, h: Kind, s: seq<Kind>, r: seq<Kind>, kept: seq<Kind>, x: string)
    requires Apart(lines, a, h, s, r) && forall k :: 0 <= k < |kept| ==> !kept[k].heading
    ensures Links(a + [h] + kept + r, x) <==> Mentions(kept, x)
  {
    ApartLinks(a + [h] + kept + r, a, h, kept, r, x);
  }

  /** Without the section, the next one with a Reviews heading counts. */
  lemma {:induction false} DroppedLinks(a: seq<Kind>, r: seq<Kind>, x: string)
    requires forall k :: 0 <= k < |a| ==> !a[k].reviews
    ensures Links(a + r, x) <==> Links(r, x)
  {
    var all := a + r;
    assert forall k :: 0 <= k < |a| ==> all[k] == a[k];
    if s: nat, i: nat :| InSection(r, s, i) && r[i].link == Some(x) {
      ShiftedSection(a, r, s, i);
      assert all[|a| + i] == r[i];
    }
    if s: nat, i: nat :| InSection(all, s, i) && all[i].link == Some(x) {
      assert s >= |a|;
      UnshiftedSection(a, r, s - |a|, i - |a|);
      assert r[i - |a|] == all[i];
    }
  }

  lemma {:induction false} ShiftedSection(a: seq<Kind>, r: seq<Kind>, s: nat, i: nat)
    requires InSection(r, s, i) && forall k :: 0 <= k < |a| ==> !a[k].reviews
    ensures InSection(a + r, |a| + s, |a| + i)
  {
    var all := a + r;
    assert forall k :: |a| <= k < |all| ==> all[k] == r[k - |a|];
    assert forall k :: 0 <= k < |a| ==> all[k] == a[k];
  }

  lemma {:induction false} UnshiftedSection(a: seq<Kind>, r: seq<Kind>, s: nat, i: nat)
    requires InSection(a + r, |a| + s, |a| + i)
    ensures InSection(r, s, i)
  {
    var all := a + r;
    assert forall k :: 0 <= k < |r| ==> r[k] == all[k + |a|];
    assert forall k :: |a| + s < k <= |a| + i ==> !all[k].heading;
  }

  /** The lines with the section dropped, or with other lines in it. */
  lemma {:induction false} ReplacedParts(lines: seq<string>, b: Bounds, kept: seq<string>)
    requires SectionBounds(lines) == Some(b)
    ensures WithSectionReplaced(lines, b, kept) ==
            if AllBlank(kept) then
              lines[..b.start] + lines[b.end..]
            else lines[..b.start] + [lines[b.start]] + kept + lines[b.end..]
  {
    DropsNothing(lines, b);
    assert lines[..b.start + 1] == lines[..b.start] + [lines[b.start]];
  }

  lemma {:induction false} ReplacedLinks(lines: seq<string>, b: Bounds, kept: seq<string>, x: string)
    requires SectionBounds(lines) == Some(b)
    requires forall k :: 0 <= k < |kept| ==> !Kinds(kept)[k].heading
    ensures Links(Kinds(WithSectionReplaced(lines, b, kept)), x) <==>
            if AllBlank(kept) then Links(Kinds(lines[b.end..]), x) else Mentions(Kinds(kept), x)
  {
    var a, h, s, r := lines[..b.start], lines[b.start], lines[b.start + 1..b.end], lines[b.end..];
    BoundsApart(lines, b);
    ReplacedParts(lines, b, kept);
    if AllBlank(kept) {
      KindsAppend(a, r);
      DroppedLinks(Kinds(a), Kinds(r), x);
    } else {
      KindsApart(a, h, kept, r);
      KeptLinks(Kinds(lines), Kinds(a), KindOf(h), Kinds(s), Kinds(r), Kinds(kept), x);
    }
  }

  lemma {:induction false} KeptOfSection(lines: seq<string>, b: Bounds, section: seq<string>, id: string, x: string)
    requires SectionBounds(lines) == Some(b) && section == lines[b.start + 1..b.end]
    ensures Mentions(Kinds(WithoutLink(section, id)), x) <==> Mentions(Kinds(section), x) && x != id
    ensures |WithoutLink(section, id)| <= |section|
    ensures |WithoutLink(section, id)| == |section| ==> !Mentions(Kinds(section), id)
    ensures forall k :: 0 <= k < |WithoutLink(section, id)| ==> !Kinds(WithoutLink(section, id))[k].heading
  {
    BoundsApart(lines, b);
    WithoutKinds(section, id);
    WithoutKindMentions(Kinds(section), id, x);
    WithoutKindAll(Kinds(section), id);
    NoneIsHeading(Kinds(section), id);
  }

  lemma {:induction false} NoneIsHeading(section: seq<Kind>, id: string)
    requires forall k :: 0 <= k < |section| ==> !section[k].heading
    ensures forall k :: 0 <= k < |WithoutKind(section, id)| ==> !WithoutKind(section, id)[k].heading
  {
    forall k | 0 <= k < |WithoutKind(section, id)| ensures !WithoutKind(section, id)[k].heading {
      WithoutKindIn(section, id, WithoutKind(section, id)[k]);
    }
  }

  lemma {:induction false} ReplacedBody(lines: seq<string>, b: Bounds, kept: seq<string>, x: string)
    requires SectionBounds(lines) == Some(b) && AllOneLine(lines) && AllOneLine(kept)
    requires forall k :: 0 <= k < |kept| ==> !Kinds(kept)[k].heading
    ensures BodyLinks(Render(WithSectionReplaced(lines, b, kept)), x) <==>
            if AllBlank(kept) then Links(Kinds(lines[b.end..]), x) else Mentions(Kinds(kept), x)
  {
    ReplacedLinks(lines, b, kept, x);
    ReplacedLines(lines, b, kept);
    RenderedLinks(WithSectionReplaced(lines, b, kept), x);
  }

  lemma {:induction false} RemoveFromSection(lines: seq<string>, b: Bounds, kept: seq<string>, id: string, x: string)
    requires AllOneLine(lines) && SectionBounds(lines) == Some(b)
    requires kept == WithoutLink(lines[b.start + 1..b.end], id)
    ensures |kept| == b.end - b.start - 1 ==> !Links(Kinds(lines), id)
    ensures AllBlank(kept) && x != id ==> !Links(Kinds(lines), x)
    ensures BodyLinks(Render(WithSectionReplaced(lines, b, kept)), x) <==>
            if AllBlank(kept) then Links(Kinds(lines[b.end..]), x) else Links(Kinds(lines), x) && x != id
  {
    var section := lines[b.start + 1..b.end];
    MentionedLinks(lines, b, x);
    MentionedLinks(lines, b, id);
    KeptOfSection(lines, b, section, id, x);
    WithoutLinkLines(section, id);
    ReplacedBody(lines, b, kept, x);
    if AllBlank(kept) {
      BlankMentionsNothing(kept, x);
    }
  }

  lemma {:induction false} RemoveText(body: string, id: string, lines: seq<string>, b: Bounds, kept: seq<string>)
    requires lines == SplitLines(body) && SectionBounds(lines) == Some(b) &&
              kept == WithoutLink(lines[b.start + 1..b.end], id)
    ensures RemoveLink(body, id) == RemoveAt(body, lines, b, kept)
  {
  }

  /** Dropping the emptied section brings another Reviews section with links to light. */
  ghost predicate Uncovers(body: string, id: string) {
    var lines := SplitLines(body);
    match SectionBounds(lines)
    case None => false
    case Some(b) =>
      var kept := WithoutLink(lines[b.start + 1..b.end], id);
      |kept| < b.end - b.start - 1 && AllBlank(kept) && exists x :: Links(Kinds(lines[b.end..]), x)
  }

  lemma {:induction false} RewrittenLinks(lines: seq<string>, b: Bounds, kept: seq<string>, id: string, x: string)
    requires AllOneLine(lines) && SectionBounds(lines) == Some(b)
    requires kept == WithoutLink(lines[b.start + 1..b.end], id)
    requires AllBlank(kept) ==> !Links(Kinds(lines[b.end..]), x)
    ensures BodyLinks(Render(WithSectionReplaced(lines, b, kept)), x) <==> Links(Kinds(lines), x) && x != id
  {
    RemoveFromSection(lines, b, kept, id, x);
  }

  lemma {:induction false} RemoveFound(
    body: string, id: string, lines: seq<string>, b: Bounds, kept: seq<string>, x: string)
    requires lines == SplitLines(body) && AllOneLine(lines) && SectionBounds(lines) == Some(b)
    requires kept == WithoutLink(lines[b.start + 1..b.end], id)
    requires |kept| < b.end - b.start - 1 && AllBlank(kept) ==> !Links(Kinds(lines[b.end..]), x)
    ensures BodyLinks(RemoveAt(body, lines, b, kept).text, x) <==> Links(Kinds(lines), x) && x != id
  {
    if |kept| == b.end - b.start - 1 {
      RemoveFromSection(lines, b, kept, id, x);
    } else {
      WithoutLinkShorter(lines[b.start + 1..b.end], id);
      RewrittenLinks(lines, b, kept, id, x);
    }
  }

  lemma {:induction false} WithoutLinkShorter(section: seq<string>, id: string)
    ensures |WithoutLink(section, id)| <= |section|
    decreases |section|
  {
    if section != [] {
      WithoutLinkShorter(section[..|section| - 1], id);
    }
  }

  lemma {:induction false} RemoveLinks(body: string, id: string, x: string)
    requires !Uncovers(body, id)
    ensures BodyLinks(RemoveLink(body, id).text, x) <==> BodyLinks(body, x) && x != id
  {
    var lines := SplitLines(body);
    match SectionBounds(lines)
    case None => NoHeadingNoLinks(lines, x);
    case Some(b) =>
      SplitLinesAreLines(body);
      var kept := WithoutLink(lines[b.start + 1..b.end], id);
      RemoveText(body, id, lines, b, kept);
      RemoveFound(body, id, lines, b, kept, x);
  }

  lemma {:induction false} UncoveredLinks(body: string, id: string)
    requires Uncovers(body, id)
    ensures exists x :: BodyLinks(RemoveLink(body, id).text, x) && !(BodyLinks(body, x) && x != id)
  {
    var lines := SplitLines(body);
    var b := SectionBounds(lines).value;
    var kept := WithoutLink(lines[b.start + 1..b.end], id);
    var x :| Links(Kinds(lines[b.end..]), x);
    SplitLinesAreLines(body);
    RemoveText(body, id, lines, b, kept);
    RemoveFromSection(lines, b, kept, id, x);
  }

  /**
    Removing an id takes out exactly that id if and only if it does not empty the section of a body whose
    next Reviews section links reviews of its own.
   */
  lemma {:induction false} RemoveTakesOut(body: string, id: string)
    ensures (forall x :: BodyLinks(RemoveLink(body, id).text, x) <==> BodyLinks(body, x) && x != id) <==>
              !Uncovers(body, id)
  {
    if Uncovers(body, id) {
      UncoveredLinks(body, id);
    } else {
      forall x ensures BodyLinks(RemoveLink(body, id).text, x) <==> BodyLinks(body, x) && x != id {
        RemoveLinks(body, id, x);
      }
    }
  }

  /** Two Reviews sections, each with one link. */
  const TWO_SECTIONS := HEADING + "\n" + ("- RV1" + "\n" + (HEADING + "\n" + ("- RV2" + "\n")))

  lemma {:induction false} SplitFour(a: string, b: string, c: string, d: string)
    requires OneLine(a) && OneLine(b) && OneLine(c) && OneLine(d)
    ensures SplitLines(a + "\n" + (b + "\n" + (c + "\n" + (d + "\n")))) == [a, b, c, d]
  {
    SplitCons(a, b + "\n" + (c + "\n" + (d + "\n")));
    SplitCons(b, c + "\n" + (d + "\n"));
    SplitCons(c, d + "\n");
    SplitOne(d);
  }

  lemma {:induction false} TwoSectionLines()
    ensures SplitLines(TWO_SECTIONS) == [HEADING, Bullet("RV1"), HEADING, Bullet("RV2")]
  {
    BulletLinks("RV1");
    BulletLinks("RV2");
    HeadingIsLine();
    assert Bullet("RV1") == "- RV1" && Bullet("RV2") == "- RV2";
    SplitFour(HEADING, "- RV1", HEADING, "- RV2");
  }

  lemma {:induction false} HeadingIsHeading()
    ensures IsHeading(HEADING)
  {
    assert HEADING[..2] == "##" && HEADING[2] == ' ';
  }

  lemma {:induction false} TwoSectionBounds(lines: seq<string>, h: string, x: string, y: string)
    requires lines == [h, x, h, y] && IsReviews(h) && IsHeading(h) && !IsHeading(x)
    ensures SectionBounds(lines) == Some(Bounds(0, 2)) && lines[1..2] == [x] && lines[2..] == [h, y]
  {
    assert NextReviews(lines, 0) == 0;
    assert NextHeading(lines, 2) == 2;
    assert NextHeading(lines, 1) == 2;
  }

  lemma {:induction false} OneLinkSection(kinds: seq<Kind>, id: string)
    requires |kinds| == 2 && kinds[0].reviews && kinds[1] == Kind(false, false, Some(id))
    ensures Links(kinds, id)
  {
    assert InSection(kinds, 0, 1);
  }

  lemma {:induction false} SecondSectionLinks(lines: seq<string>)
    requires lines == [HEADING, Bullet("RV2")]
    ensures Links(Kinds(lines), "RV2")
  {
    HeadingIsReviews();
    BulletLinks("RV2");
    OneLinkSection(Kinds(lines), "RV2");
  }

  /** Such a body exists: taking the only link out of the first of two sections brings the second to light. */
  lemma {:induction false} SecondSectionUncovered()
    ensures Uncovers(TWO_SECTIONS, "RV1")
  {
    var lines := SplitLines(TWO_SECTIONS);
    TwoSectionLines();
    HeadingIsReviews();
    HeadingIsHeading();
    BulletLinks("RV1");
    TwoSectionBounds(lines, HEADING, Bullet("RV1"), Bullet("RV2"));
    var section := [Bullet("RV1")];
    assert section[..0] == [];
    assert WithoutLink(section, "RV1") == [];
    SecondSectionLinks(lines[2..]);
  }

  /** With one Reviews heading, or none, there is nothing to uncover. */
  lemma {:induction false} OneHeadingUncoversNothing(body: string, id: string)
    requires OneReviewsHeading(Kinds(SplitLines(body)))
    ensures !Uncovers(body, id)
  {
    var lines := SplitLines(body);
    if SectionBounds(lines).Some? {
      var b := SectionBounds(lines).value;
      var later := lines[b.end..];
      BoundsFound(lines, b);
      assert Kinds(lines)[b.start].reviews;
      forall k | 0 <= k < |later| ensures !Kinds(later)[k].reviews {
        assert Kinds(later)[k] == Kinds(lines)[b.end + k];
      }
    }
  }

  lemma {:induction false} DropBlankLines(lines: seq<string>)
    requires AllOneLine(lines)
    ensures AllOneLine(DropBlankHead(lines))
  {
    if lines != [] && IsBlank(lines[0]) {
      DropBlankLines(lines[1..]);
    }
  }

  lemma {:induction false} ReplacedLines(lines: seq<string>, b: Bounds, kept: seq<string>)
    requires b.start < b.end <= |lines| && AllOneLine(lines) && AllOneLine(kept)
    ensures AllOneLine(WithSectionReplaced(lines, b, kept))
  {
    DropBlankLines(lines[b.end..]);
  }

  // ---------------------------------------------------------------- what the edits keep

  lemma {:induction false} VisibleApart(a: seq<string>, h: string, s: seq<string>, r: seq<string>)
    ensures Visible(a + [h] + s + r) == Visible(a) + Visible([h]) + Visible(s) + Visible(r)
  {
    VisibleAppend(a + [h] + s, r);
    VisibleAppend(a + [h], s);
    VisibleAppend(a, [h]);
  }

  /** The visible lines of a body whose section was replaced or dropped. */
  lemma {:induction false} RevisedVisible(a: seq<string>, h: string, kept: seq<string>, r: seq<string>)
    ensures Visible(if AllBlank(kept) then a + r else a + [h] + kept + r) ==
            Visible(a) + (if AllBlank(kept) then [] else Visible([h]) + Visible(kept)) + Visible(r)
  {
    if AllBlank(kept) {
      VisibleAppend(a, r);
      assert Visible(a) + [] == Visible(a);
    } else {
      VisibleApart(a, h, kept, r);
      Assoc(Visible(a), Visible([h]), Visible(kept));
    }
  }

  lemma {:induction false} ReplacedVisible(lines: seq<string>, b: Bounds, kept: seq<string>)
    requires SectionBounds(lines) == Some(b)
    ensures Visible(WithSectionReplaced(lines, b, kept)) ==
            Visible(lines[..b.start]) + (if AllBlank(kept) then [] else Visible([lines[b.start]]) + Visible(kept)) +
                Visible(lines[b.end..])
  {
    DropsNothing(lines, b);
    assert lines[..b.start + 1] == lines[..b.start] + [lines[b.start]];
    RevisedVisible(lines[..b.start], lines[b.start], kept, lines[b.end..]);
  }

  /**
    Removing an id keeps every visible line before and after the section, in order, and inside it every
    line but the links to that id; the heading goes only together with a section left empty.
   */
  lemma {:induction false} RemoveKeepsTheRest(body: string, id: string, b: Bounds)
    requires SectionBounds(SplitLines(body)) == Some(b) && RemoveLink(body, id).changed
    ensures var lines := SplitLines(body);
            var kept := WithoutLink(lines[b.start + 1..b.end], id);
            Visible(SplitLines(RemoveLink(body, id).text)) ==
            Visible(lines[..b.start]) + (if AllBlank(kept) then [] else Visible([lines[b.start]]) + Visible(kept)) +
                Visible(lines[b.end..])
  {
    var lines := SplitLines(body);
    var section := lines[b.start + 1..b.end];
    SplitLinesAreLines(body);
    WithoutLinkLines(section, id);
    ReplacedVisible(lines, b, WithoutLink(section, id));
    ReplacedLines(lines, b, WithoutLink(section, id));
    VisibleRendered(WithSectionReplaced(lines, b, WithoutLink(section, id)));
  }

  lemma {:induction false} BulletVisible(id: string)
    requires IsReviewId(id)
    ensures Visible([Bullet(id)]) == [Bullet(id)]
  {
    BulletLinks(id);
    assert IsReviewId(id) ==> RStrip(Bullet(id)) == Bullet(id) by {
      assert Bullet(id)[|id| + 1] == id[|id| - 1];
    }
    assert Visible([Bullet(id)][..0]) == [];
  }

  lemma {:induction false} HeadingVisible()
    ensures Visible([HEADING]) == [HEADING] && Visible([""]) == []
  {
    HeadingIsReviews();
    assert Visible([""][..0]) == [] && Visible([HEADING][..0]) == [];
    assert RStrip(HEADING) == HEADING;
  }

  lemma {:induction false} PutAtEnd(lines: seq<string>, gap: seq<string>, h: string, t: string)
    requires Visible(gap) == [] && Visible([h]) == [h] && Visible([""]) == [] && Visible([t]) == [t]
    ensures Visible(lines + gap + [h, "", t]) == Visible(lines) + [h, t]
  {
    assert lines + gap + [h, "", t] == (lines + gap) + [h] + [""] + [t];
    VisibleApart(lines + gap, h, [""], [t]);
    VisibleAppend(lines, gap);
  }

  lemma {:induction false} PutBetween(front: seq<string>, line: string, t: seq<string>, back: seq<string>)
    requires Visible([line]) == [line] && Visible(t) == []
    ensures Visible(front + [line] + t + back) == Visible(front + t) + [line] + Visible(back)
  {
    VisibleAppend(front, t);
    VisibleApart(front, line, t, back);
  }

  lemma {:induction false} FreshVisible(lines: seq<string>, gap: seq<string>, id: string)
    requires (gap == [] || gap == [""]) && IsReviewId(id)
    ensures Visible(lines + gap + [HEADING, "", Bullet(id)]) == Visible(lines) + [HEADING, Bullet(id)]
  {
    BulletVisible(id);
    HeadingVisible();
    PutAtEnd(lines, gap, HEADING, Bullet(id));
  }

  /** Appending an id keeps every visible line and puts the bullet after the section's last one. */
  lemma {:induction false} AppendKeepsTheRest(body: string, id: string)
    requires IsReviewId(id) && AppendLink(body, id).changed
    ensures var lines := SplitLines(body);
            match SectionBounds(lines)
            case None => Visible(SplitLines(AppendLink(body, id).text)) == Visible(lines) + [HEADING, Bullet(id)]
            case Some(b) =>
              Visible(SplitLines(AppendLink(body, id).text)) ==
                  Visible(lines[..b.end]) + [Bullet(id)] + Visible(lines[b.end..])
  {
    var lines := SplitLines(body);
    SplitLinesAreLines(body);
    match SectionBounds(lines)
    case None =>
      var gap := if lines != [] && !IsBlank(lines[|lines| - 1]) then [""] else [];
      WithSectionLines(lines, gap, id);
      VisibleRendered(WithSection(lines, id));
      FreshVisible(lines, gap, id);
    case Some(b) =>
      WithBulletLines(lines, b, id);
      VisibleRendered(WithBullet(lines, b, id));
      BulletPlaced(lines, b, id);
  }

  lemma {:induction false} BlankInvisible(lines: seq<string>)
    requires AllBlank(lines)
    ensures Visible(lines) == []
    decreases |lines|
  {
    if lines != [] {
      BlankInvisible(lines[..|lines| - 1]);
    }
  }

  lemma {:induction false} BulletPlaced(lines: seq<string>, b: Bounds, id: string)
    requires SectionBounds(lines) == Some(b) && IsReviewId(id)
    ensures Visible(WithBullet(lines, b, id)) == Visible(lines[..b.end]) + [Bullet(id)] + Visible(lines[b.end..])
  {
    var section := lines[b.start + 1..b.end];
    var s := WithoutBlankTail(section);
    var t := section[|s|..];
    assert section == s + t;
    BulletApart(lines, b, id, s, t);
    BulletVisible(id);
    BlankInvisible(t);
    HeadOfSection(lines, b.start, b.end, s, t);
    Regroup(lines[..b.start] + [lines[b.start]], s, [Bullet(id)], t, lines[b.end..]);
    PutBetween(lines[..b.start] + [lines[b.start]] + s, Bullet(id), t, lines[b.end..]);
  }

  lemma {:induction false} HeadOfSection(lines: seq<string>, i: nat, j: nat, s: seq<string>, t: seq<string>)
    requires i < j <= |lines| && lines[i + 1..j] == s + t
    ensures lines[..j] == lines[..i] + [lines[i]] + s + t
  {
    assert lines[..j] == lines[..i] + [lines[i]] + lines[i + 1..j];
  }

  lemma {:induction false} Regroup(a: seq<string>, s: seq<string>, k: seq<string>, t: seq<string>, r: seq<string>)
    ensures a + (s + k + t) + r == a + s + k + t + r
  {
  }
}
