/** The change log of an item body (planning/item_store.py): appending an entry and reading entries back. */
module ChangeLog {
  import opened Wrappers
  import opened Text
  import opened Sequences

  const HEADING := "## Change Log"

  datatype Entry = Entry(timestamp: string, actor: string, description: string)

  // ---------------------------------------------------------------- finding the heading

  predicate HeadingAt(body: string, i: int) {
    0 <= i && i + |HEADING| <= |body| && body[i..i + |HEADING|] == HEADING
  }

  /** The first heading at or after `i`. */
  function FirstHeading(body: string, i: nat): (n: Option<nat>)
    ensures n.Some? ==> i <= n.value && HeadingAt(body, n.value) && forall k :: i <= k < n.value ==> !HeadingAt(body, k)
    ensures n.None? ==> forall k :: i <= k ==> !HeadingAt(body, k)
    decreases |body| - i
  {
    if HeadingAt(body, i) then Some(i) else if i >= |body| then None else FirstHeading(body, i + 1)
  }

  /** The last heading before `i`. */
  function LastHeading(body: string, i: nat): (n: Option<nat>)
    ensures n.Some? ==> n.value < i && HeadingAt(body, n.value)
    ensures n.None? ==> forall k :: 0 <= k < i ==> !HeadingAt(body, k)
  {
    if i == 0 then None else if HeadingAt(body, i - 1) then Some(i - 1) else LastHeading(body, i - 1)
  }

  // ---------------------------------------------------------------- appending

  function LineStart(timestamp: string, actor: string): string {
    "- " + timestamp + " (" + actor + "): "
  }

  function EntryLine(e: Entry): string {
    LineStart(e.timestamp, e.actor) + e.description
  }

  predicate EndsLine(s: string) {
    s != "" && s[|s| - 1] == '\n'
  }

  function Append(body: string, e: Entry): string {
    match LastHeading(body, |body|)
    case Some(at) =>
      var section := body[at..];
      body[..at] + (if EndsLine(section) then section else section + "\n") + EntryLine(e) + "\n"
    case None => RStrip(body) + "\n\n" + HEADING + "\n\n" + EntryLine(e) + "\n"
  }

  // ---------------------------------------------------------------- reading

  predicate IsClose(c: char) {
    c == ')'
  }

  /** What follows `prefix` in `s`. */
  function After(s: string, prefix: string): Option<string> {
    if prefix <= s then Some(s[|prefix|..]) else None
  }

  /** `(.*)` behind `\): ` */
  function ParseDescription(timestamp: string, actor: string, s: string): Option<Entry> {
    match After(s, "): ")
    case None => None
    case Some(description) => Some(Entry(timestamp, actor, description))
  }

  /** `([^)]+)` behind ` \(` */
  function ParseActor(timestamp: string, s: string): Option<Entry> {
    match After(s, " (")
    case None => None
    case Some(rest) =>
      var n := Before(rest, IsClose);
      if n == 0 then None else ParseDescription(timestamp, rest[..n], rest[n..])
  }

  /** `^- (\S+) \(([^)]+)\): (.*)$` */
  function ParseEntry(line: string): Option<Entry> {
    match After(line, "- ")
    case None => None
    case Some(rest) =>
      var n := Before(rest, IsSpace);
      if n == 0 then None else ParseActor(rest[..n], rest[n..])
  }

  function EntryOf(line: string): seq<Entry> {
    match ParseEntry(Strip(line))
    case None => []
    case Some(e) => [e]
  }

  function FlatMap<A, B>(xs: seq<A>, f: A -> seq<B>): seq<B> {
    if xs == [] then [] else FlatMap(xs[..|xs| - 1], f) + f(xs[|xs| - 1])
  }

  function EntriesOf(lines: seq<string>): seq<Entry> {
    FlatMap(lines, EntryOf)
  }

  /** The change log of a body: everything from the first heading on. */
  function Parse(body: string): seq<Entry> {
    match FirstHeading(body, 0)
    case None => []
    case Some(at) => EntriesOf(SplitLines(body[at..]))
  }

  lemma {:induction false} FlatMapNext<A, B>(xs: seq<A>, f: A -> seq<B>, i: nat)
    requires i < |xs|
    ensures FlatMap(xs[..i + 1], f) == FlatMap(xs[..i], f) + f(xs[i])
  {
    assert xs[..i + 1][..i] == xs[..i];
  }

  method ReadEntries(lines: seq<string>) returns (entries: seq<Entry>)
    ensures entries == FlatMap(lines, EntryOf)
  {
    entries := [];
    for i := 0 to |lines|
      invariant entries == FlatMap(lines[..i], EntryOf)
    {
      FlatMapNext(lines, EntryOf, i);
      entries := entries + EntryOf(lines[i]);
    }
    assert lines[..|lines|] == lines;
  }

  method ParseChangeLog(body: string) returns (entries: seq<Entry>)
    ensures entries == Parse(body)
  {
    var at := FirstHeading(body, 0);
    if at.None? { return []; }
    entries := ReadEntries(SplitLines(body[at.value..]));
  }

  // ---------------------------------------------------------------- an entry line reads back

  predicate IsWord(s: string) {
    s != "" && forall i :: 0 <= i < |s| ==> !IsSpace(s[i])
  }

  predicate IsActor(s: string) {
    s != "" && OneLine(s) && forall i :: 0 <= i < |s| ==> !IsClose(s[i])
  }

  /**
    An entry that its line can say: a time without spaces, an actor on one line without a closing parenthesis,
    and one line of text that does not end in space.
   */
  predicate Readable(e: Entry) {
    && IsWord(e.timestamp) && IsActor(e.actor)
    && OneLine(e.description) && e.description != "" && RStrip(e.description) == e.description
  }

  lemma {:induction false} AfterPrefix(prefix: string, rest: string)
    ensures After(prefix + rest, prefix) == Some(rest)
  {
  }

  lemma {:induction false} ParsedActor(timestamp: string, actor: string, tail: string)
    requires IsActor(actor) && tail != "" && tail[0] == ')'
    ensures ParseActor(timestamp, " (" + (actor + tail)) == ParseDescription(timestamp, actor, tail)
  {
    AfterPrefix(" (", actor + tail);
    BeforeEnds(actor, tail, IsClose);
    CutAt(actor, tail);
  }

  lemma {:induction false} ParsedEntry(timestamp: string, actor: string, tail: string)
    requires IsWord(timestamp) && IsActor(actor) && tail != "" && tail[0] == ')'
    ensures ParseEntry("- " + timestamp + " (" + actor + tail) == ParseDescription(timestamp, actor, tail)
  {
    var rest := " (" + (actor + tail);
    assert "- " + timestamp + " (" + actor + tail == "- " + (timestamp + rest);
    AfterPrefix("- ", timestamp + rest);
    BeforeEnds(timestamp, rest, IsSpace);
    CutAt(timestamp, rest);
    ParsedActor(timestamp, actor, tail);
  }

  /** The line of an entry around its last parts. */
  lemma {:induction false} LineParts(e: Entry)
    ensures EntryLine(e) == "- " + e.timestamp + " (" + e.actor + ("): " + e.description)
  {
  }

  lemma {:induction false} LineIsStripped(e: Entry)
    requires e.description != "" && RStrip(e.description) == e.description
    ensures Strip(EntryLine(e)) == EntryLine(e)
  {
    var line := EntryLine(e);
    assert line[|line| - 1] == e.description[|e.description| - 1] && line[0] == '-';
  }

  lemma {:induction false} JoinedLines(a: string, b: string, c: string, d: string)
    requires OneLine(a) && OneLine(b) && OneLine(c) && OneLine(d)
    ensures OneLine("- " + a + b + c + d)
  {
  }

  lemma {:induction false} DescriptionParses(timestamp: string, actor: string, description: string)
    ensures ParseDescription(timestamp, actor, "): " + description) == Some(Entry(timestamp, actor, description))
  {
    AfterPrefix("): ", description);
  }

  lemma {:induction false} ReadableEntry(e: Entry)
    requires Readable(e)
    ensures ParseEntry(EntryLine(e)) == Some(e)
  {
    LineParts(e);
    ParsedEntry(e.timestamp, e.actor, "): " + e.description);
    DescriptionParses(e.timestamp, e.actor, e.description);
  }

  lemma {:induction false} ReadableIsLine(e: Entry)
    requires Readable(e)
    ensures OneLine(EntryLine(e))
  {
    LineParts(e);
    WordIsLine(e.timestamp);
    JoinedLines(e.timestamp, " (", e.actor, "): " + e.description);
  }

  /** A readable entry's line parses to the entry. */
  lemma {:induction false} ReadableParses(e: Entry)
    requires Readable(e)
    ensures EntryOf(EntryLine(e)) == [e] && OneLine(EntryLine(e))
  {
    ReadableEntry(e);
    LineIsStripped(e);
    ReadableIsLine(e);
  }

  lemma {:induction false} WordIsLine(s: string)
    requires IsWord(s)
    ensures OneLine(s)
  {
  }

  lemma {:induction false} DescriptionParts(timestamp: string, actor: string, s: string, e: Entry)
    requires ParseDescription(timestamp, actor, s) == Some(e)
    ensures s == "): " + e.description && e == Entry(timestamp, actor, e.description)
  {
  }

  lemma {:induction false} ActorParts(timestamp: string, s: string, e: Entry)
    requires ParseActor(timestamp, s) == Some(e)
    ensures s == " (" + (e.actor + ("): " + e.description)) && e.timestamp == timestamp
    ensures e.actor != "" && forall i :: 0 <= i < |e.actor| ==> !IsClose(e.actor[i])
  {
    var rest := s[2..];
    var n := Before(rest, IsClose);
    DescriptionParts(timestamp, rest[..n], rest[n..], e);
    assert rest == rest[..n] + rest[n..] && s == " (" + rest;
  }

  lemma {:induction false} EntryParts(t: string, e: Entry)
    requires ParseEntry(t) == Some(e)
    ensures |t| >= 2 && t == "- " + t[2..]
    ensures var n := Before(t[2..], IsSpace); n > 0 && ParseActor(t[2..][..n], t[2..][n..]) == Some(e)
  {
    TailCut(t, 2, 0);
  }

  /** The parts of a parsed line, put back together. */
  lemma {:induction false} ParsedParts(t: string, e: Entry)
    requires ParseEntry(t) == Some(e)
    ensures t == EntryLine(e) && IsWord(e.timestamp)
    ensures e.actor != "" && forall i :: 0 <= i < |e.actor| ==> !IsClose(e.actor[i])
  {
    EntryParts(t, e);
    var rest := t[2..];
    var n := Before(rest, IsSpace);
    ActorParts(rest[..n], rest[n..], e);
    TailCut(rest, n, 0);
    Together(e.timestamp, e.actor, e.description);
  }

  lemma {:induction false} Together(timestamp: string, actor: string, description: string)
    ensures "- " + (timestamp + (" (" + (actor + ("): " + description)))) == LineStart(timestamp, actor) + description
  {
  }

  lemma {:induction false} StripIsPart(line: string)
    requires OneLine(line)
    ensures OneLine(Strip(line)) && (Strip(line) != "" ==> !IsSpace(Strip(line)[|Strip(line)| - 1]))
  {
    var r := RStrip(line);
    LStripSuffix(r);
    assert OneLine(r);
  }

  /** What a stripped line parses to is readable. */
  lemma {:induction false} ParsedIsReadable(line: string, e: Entry)
    requires OneLine(line) && ParseEntry(Strip(line)) == Some(e)
    ensures Readable(e)
  {
    var t, start := Strip(line), LineStart(e.timestamp, e.actor);
    ParsedParts(t, e);
    StripIsPart(line);
    assert (start + e.description)[|start| - 1] == ' ' && |t| == |start| + |e.description|;
    PartsAreLines(t, "- " + e.timestamp + " (", e.actor, "): ", e.description);
  }

  lemma {:induction false} PartsAreLines(t: string, a: string, b: string, c: string, d: string)
    requires t == a + b + c + d && OneLine(t)
    ensures OneLine(b) && OneLine(d) && (d != "" ==> t[|t| - 1] == d[|d| - 1])
  {
    forall i | 0 <= i < |b| ensures !IsBreak(b[i]) {
      assert t[|a| + i] == b[i];
    }
    forall i | 0 <= i < |d| ensures !IsBreak(d[i]) {
      assert t[|a| + |b| + |c| + i] == d[i];
    }
  }

  lemma {:induction false} EntryFrom(lines: seq<string>, e: Entry)
    requires e in EntriesOf(lines)
    ensures exists line :: line in lines && ParseEntry(Strip(line)) == Some(e)
    decreases |lines|
  {
    var init, last := lines[..|lines| - 1], lines[|lines| - 1];
    if e in EntriesOf(init) {
      EntryFrom(init, e);
    } else {
      assert e in EntryOf(last);
      assert last in lines;
    }
  }

  // ---------------------------------------------------------------- the log after an append

  lemma {:induction false} FlatMapAppend<A, B>(a: seq<A>, b: seq<A>, f: A -> seq<B>)
    ensures FlatMap(a + b, f) == FlatMap(a, f) + FlatMap(b, f)
    decreases |b|
  {
    if b == [] {
      assert a + b == a;
    } else {
      assert (a + b)[..|a + b| - 1] == a + b[..|b| - 1];
      FlatMapAppend(a, b[..|b| - 1], f);
    }
  }

  lemma {:induction false} FlatMapOne<A, B>(x: A, f: A -> seq<B>)
    ensures FlatMap([x], f) == f(x)
  {
    assert [x][..0] == [];
  }

  lemma {:induction false} EntriesAppend(a: seq<string>, b: seq<string>)
    ensures EntriesOf(a + b) == EntriesOf(a) + EntriesOf(b)
  {
    FlatMapAppend(a, b, EntryOf);
  }

  lemma {:induction false} OneEntry(line: string)
    ensures EntriesOf([line]) == EntryOf(line)
  {
    FlatMapOne(line, EntryOf);
  }

  lemma {:induction false} NoEntryOnHeading()
    ensures EntriesOf([HEADING, ""]) == []
  {
    assert Strip(HEADING) == HEADING && HEADING[0] == '#';
    assert After(HEADING, "- ") == None;
    assert Strip("") == "";
    OneEntry(HEADING);
    OneEntry("");
    EntriesAppend([HEADING], [""]);
    assert [HEADING, ""] == [HEADING] + [""];
  }

  lemma {:induction false} EndingLater(line: string, brk: string, rest: string)
    requires OneLine(line) && WholeBreak(brk, rest) && !(brk == "\r" && rest == "")
    requires SplitLines(rest + "\n") == SplitLines(rest) || SplitLines(rest + "\n") == SplitLines(rest) + [""]
    ensures var s := line + brk + rest;
            SplitLines(s + "\n") == SplitLines(s) || SplitLines(s + "\n") == SplitLines(s) + [""]
  {
    assert line + brk + rest + "\n" == line + brk + (rest + "\n");
    SplitFirst(line, brk, rest);
    SplitFirst(line, brk, rest + "\n");
    Assoc([line], SplitLines(rest), [""]);
  }

  lemma {:induction false} EndingLast(line: string)
    requires OneLine(line)
    ensures SplitLines(line + "\n") == [line] && SplitLines(line + "\r" + "\n") == SplitLines(line + "\r")
  {
    SplitOne(line);
    assert line + "\r" + "\n" == line + "\r\n" + "" && line + "\r" == line + "\r" + "";
    SplitFirst(line, "\r\n", "");
    SplitFirst(line, "\r", "");
  }

  /** Ending the last line adds at most an empty line. */
  lemma {:induction false} EndingTheLine(s: string)
    ensures SplitLines(s + "\n") == SplitLines(s) || SplitLines(s + "\n") == SplitLines(s) + [""]
    decreases |s|
  {
    var n := FirstBreak(s);
    var line, tail := s[..n], s[n..];
    assert s == line + tail;
    if tail == "" || tail == "\r" {
      assert tail == "" ==> s == line;
      EndingLast(line);
    } else {
      var w := BreakWidth(s, n);
      var brk, rest := s[n..n + w], s[n + w..];
      assert s == line + brk + rest;
      EndingTheLine(rest);
      EndingLater(line, brk, rest);
    }
  }

  lemma {:induction false} EndedEntries(s: string)
    ensures EntriesOf(SplitLines(s + "\n")) == EntriesOf(SplitLines(s))
  {
    EndingTheLine(s);
    EntriesAppend(SplitLines(s), [""]);
    OneEntry("");
  }

  /** The entries of a section with more text on lines of its own. */
  lemma {:induction false} SectionEntries(section: string, line: string)
    ensures EntriesOf(SplitLines((if EndsLine(section) then section else section + "\n") + (line + "\n"))) ==
            EntriesOf(SplitLines(section)) + EntriesOf(SplitLines(line))
  {
    if EndsLine(section) {
      var text := section[..|section| - 1];
      assert section == text + "\n";
      LineAfterFeed(text, line);
    } else {
      LineAfterFeed(section, line);
      EndedEntries(section);
    }
  }

  lemma {:induction false} LineAfterFeed(text: string, line: string)
    ensures EntriesOf(SplitLines(text + "\n" + (line + "\n"))) ==
            EntriesOf(SplitLines(text + "\n")) + EntriesOf(SplitLines(line))
  {
    SplitAtFeed(text, line + "\n");
    EntriesAppend(SplitLines(text + "\n"), SplitLines(line + "\n"));
    EndedEntries(line);
  }

  /** The first heading stays where it is when text is appended. */
  lemma {:induction false} FirstStays(body: string, more: string)
    requires FirstHeading(body, 0).Some?
    ensures FirstHeading(body + more, 0) == FirstHeading(body, 0)
  {
    var at := FirstHeading(body, 0).value;
    var all := body + more;
    forall k: nat | k <= at ensures HeadingAt(all, k) == HeadingAt(body, k) {
      assert all[k..k + |HEADING|] == body[k..k + |HEADING|];
    }
    assert HeadingAt(all, at);
  }

  lemma {:induction false} InSlice(all: string, k: nat, n: nat, i: nat)
    requires k <= i < k + n <= |all|
    ensures all[k..k + n][i - k] == all[i]
  {
  }

  lemma {:induction false} NotAcrossFeed(all: string, k: nat, feed: nat)
    requires k <= feed < |all| && feed < k + |HEADING| && all[feed] == '\n'
    ensures !HeadingAt(all, k)
  {
    assert forall i :: 0 <= i < |HEADING| ==> HEADING[i] != '\n';
    if k + |HEADING| <= |all| {
      InSlice(all, k, |HEADING|, feed);
    }
  }

  lemma {:induction false} NotInside(text: string, more: string, k: nat)
    requires k + |HEADING| <= |text| && !HeadingAt(text, k)
    ensures !HeadingAt(text + more, k)
  {
    assert (text + more)[k..k + |HEADING|] == text[k..k + |HEADING|];
  }

  lemma {:induction false} NotInPrefix(body: string, text: string, k: nat)
    requires text <= body && !HeadingAt(body, k)
    ensures !HeadingAt(text, k)
  {
    if k + |HEADING| <= |text| {
      assert text[k..k + |HEADING|] == body[k..k + |HEADING|];
    }
  }

  /** A new section is the first one. */
  lemma {:induction false} FirstIsNew(body: string, text: string)
    requires FirstHeading(body, 0) == None && text <= body
    ensures FirstHeading(text + ("\n\n" + HEADING), 0) == Some(|text| + 2)
  {
    var all := text + ("\n\n" + HEADING);
    assert all[|text|] == '\n' && all[|text| + 1] == '\n';
    forall k: nat | k < |text| + 2 ensures !HeadingAt(all, k) {
      NotInPrefix(body, text, k);
      if k + |HEADING| <= |text| {
        NotInside(text, "\n\n" + HEADING, k);
      } else {
        NotAcrossFeed(all, k, if k > |text| then k else |text|);
      }
    }
    assert all[|text| + 2..|text| + 2 + |HEADING|] == HEADING;
    assert HeadingAt(all, |text| + 2);
  }

  lemma {:induction false} Rejoined(a: string, b: string, ends: bool, line: string)
    ensures a + (if ends then b else b + "\n") + line + "\n" == (a + b) + ((if ends then "" else "\n") + (line + "\n"))
  {
  }

  /** With a section there, the appended text goes at the end of the body. */
  lemma {:induction false} AppendAtEnd(body: string, e: Entry, at: nat)
    requires FirstHeading(body, 0) == Some(at)
    ensures Append(body, e) == body + ((if EndsLine(body[at..]) then "" else "\n") + (EntryLine(e) + "\n"))
  {
    assert HeadingAt(body, at);
    var last := LastHeading(body, |body|).value;
    EndsAlike(body, at, last);
    Rejoined(body[..last], body[last..], EndsLine(body[at..]), EntryLine(e));
    assert body == body[..last] + body[last..];
  }

  lemma {:induction false} EndsAlike(body: string, i: nat, j: nat)
    requires i < |body| && j < |body|
    ensures EndsLine(body[i..]) == EndsLine(body[j..])
  {
    assert body[i..][|body| - i - 1] == body[j..][|body| - j - 1];
  }

  lemma {:induction false} ParseMore(body: string, more: string, at: nat)
    requires FirstHeading(body, 0) == Some(at)
    ensures Parse(body + more) == EntriesOf(SplitLines(body[at..] + more))
  {
    FirstStays(body, more);
    assert (body + more)[at..] == body[at..] + more;
  }

  lemma {:induction false} AppendToSection(body: string, e: Entry, at: nat)
    requires FirstHeading(body, 0) == Some(at)
    ensures Parse(Append(body, e)) == Parse(body) + EntriesOf(SplitLines(EntryLine(e)))
  {
    var section, end := body[at..], EntryLine(e) + "\n";
    AppendAtEnd(body, e, at);
    ParseMore(body, (if EndsLine(section) then "" else "\n") + end, at);
    AppendedSection(section, end);
    SectionEntries(section, EntryLine(e));
  }

  lemma {:induction false} AppendedSection(section: string, end: string)
    ensures section + ((if EndsLine(section) then "" else "\n") + end) ==
              (if EndsLine(section) then section else section + "\n") + end
  {
  }

  lemma {:induction false} SplitSection(h: string, text: string)
    requires OneLine(h)
    ensures SplitLines(h + "\n\n" + text) == [h, ""] + SplitLines(text)
  {
    assert h + "\n\n" + text == h + "\n" + ("" + "\n" + text);
    SplitCons(h, "" + "\n" + text);
    SplitCons("", text);
  }

  lemma {:induction false} HeadingIsLine()
    ensures OneLine(HEADING)
  {
  }

  lemma {:induction false} NewSectionEntries(line: string)
    ensures EntriesOf(SplitLines(HEADING + "\n\n" + line + "\n")) == EntriesOf(SplitLines(line))
  {
    Assoc(HEADING + "\n\n", line, "\n");
    HeadingIsLine();
    SplitSection(HEADING, line + "\n");
    NoEntryOnHeading();
    EntriesAppend([HEADING, ""], SplitLines(line + "\n"));
    EndedEntries(line);
  }

  lemma {:induction false} NewSectionText(body: string, text: string, line: string)
    requires FirstHeading(body, 0) == None && text <= body
    ensures Parse(text + "\n\n" + HEADING + "\n\n" + line + "\n") ==
              EntriesOf(SplitLines(HEADING + "\n\n" + line + "\n"))
  {
    FirstIsNew(body, text);
    ParseMore(text + ("\n\n" + HEADING), "\n\n" + line + "\n", |text| + 2);
    Joined(text, "\n\n", HEADING, line, "\n");
  }

  lemma {:induction false} Joined(text: string, gap: string, h: string, line: string, end: string)
    ensures text + gap + h + gap + line + end == (text + (gap + h)) + (gap + line + end)
    ensures (text + (gap + h))[|text| + |gap|..] == h && h + gap + line + end == h + (gap + line + end)
  {
  }

  lemma {:induction false} AppendNewSection(body: string, e: Entry)
    requires FirstHeading(body, 0) == None
    ensures Parse(Append(body, e)) == EntriesOf(SplitLines(EntryLine(e)))
  {
    NewSectionText(body, RStrip(body), EntryLine(e));
    NewSectionEntries(EntryLine(e));
  }

  /** For every body and every entry, reading after an append gives the old entries and those that the new text says. */
  lemma {:induction false} AppendThenParse(body: string, e: Entry)
    ensures Parse(Append(body, e)) == Parse(body) + EntriesOf(SplitLines(EntryLine(e)))
  {
    if FirstHeading(body, 0).Some? {
      AppendToSection(body, e, FirstHeading(body, 0).value);
    } else {
      AppendNewSection(body, e);
    }
  }

  /** The text says exactly the entry if and only if the entry is readable. */
  lemma {:induction false} EntrySaid(e: Entry)
    ensures EntriesOf(SplitLines(EntryLine(e))) == [e] <==> Readable(e)
  {
    var line := EntryLine(e);
    if Readable(e) {
      ReadableParses(e);
      SplitOneLine(line);
      OneEntry(line);
    }
    if EntriesOf(SplitLines(line)) == [e] {
      assert e in [e];
      EntryFrom(SplitLines(line), e);
      var l :| l in SplitLines(line) && ParseEntry(Strip(l)) == Some(e);
      SplitLinesAreLines(line);
      ParsedIsReadable(l, e);
    }
  }

  lemma {:induction false} SplitOneLine(line: string)
    requires OneLine(line) && line != ""
    ensures SplitLines(line) == [line]
  {
    FirstBreakAt(line, "");
    assert line + "" == line;
  }

  /** An append adds exactly its entry to the log, whatever the body, if and only if the entry is readable. */
  lemma {:induction false} AppendReadsBack(body: string, e: Entry)
    ensures Parse(Append(body, e)) == Parse(body) + [e] <==> Readable(e)
  {
    AppendThenParse(body, e);
    EntrySaid(e);
    var said := EntriesOf(SplitLines(EntryLine(e)));
    if Parse(body) + said == Parse(body) + [e] {
      assert (Parse(body) + said)[|Parse(body)|..] == said && (Parse(body) + [e])[|Parse(body)|..] == [e];
    }
  }

  // ---------------------------------------------------------------- what an append leaves of the body

  lemma {:induction false} LinesBehind(text: string, line: string)
    ensures Visible(SplitLines(text + "\n" + (line + "\n"))) == Visible(SplitLines(text)) + Visible(SplitLines(line))
  {
    SplitAtFeed(text, line + "\n");
    VisibleAppend(SplitLines(text + "\n"), SplitLines(line + "\n"));
    SpaceAtEnd(text, '\n');
    SpaceAtEnd(line, '\n');
  }

  lemma {:induction false} SectionLines(h: string, rest: seq<string>)
    requires RStrip(h) == h && h != ""
    ensures Visible([""] + ([h, ""] + rest)) == [h] + Visible(rest)
  {
    VisibleAppend([""], [h, ""] + rest);
    VisibleAppend([h, ""], rest);
    VisibleAppend([h], [""]);
    assert [h] + [""] == [h, ""];
    VisibleOne("");
    VisibleOne(h);
  }

  lemma {:induction false} NewSectionLines(text: string, h: string, line: string)
    requires OneLine(h) && RStrip(h) == h && h != ""
    ensures Visible(SplitLines(text + "\n" + ("\n" + (h + "\n\n" + (line + "\n"))))) ==
            Visible(SplitLines(text)) + ([h] + Visible(SplitLines(line)))
  {
    var section := h + "\n\n" + (line + "\n");
    SplitAtFeed(text, "\n" + section);
    VisibleAppend(SplitLines(text + "\n"), SplitLines("\n" + section));
    SpaceAtEnd(text, '\n');
    SplitCons("", section);
    assert "" + "\n" + section == "\n" + section;
    SplitSection(h, line + "\n");
    SpaceAtEnd(line, '\n');
    SectionLines(h, SplitLines(line + "\n"));
  }

  ghost predicate HasHeading(body: string) {
    exists at :: HeadingAt(body, at)
  }

  lemma {:induction false} HeadingFound(body: string)
    ensures HasHeading(body) <==> FirstHeading(body, 0).Some?
  {
    if FirstHeading(body, 0).Some? {
      assert HeadingAt(body, FirstHeading(body, 0).value);
    }
  }

  lemma {:induction false} LoggedLines(body: string, e: Entry, at: nat)
    requires FirstHeading(body, 0) == Some(at)
    ensures body <= Append(body, e)
    ensures Visible(SplitLines(Append(body, e))) == Visible(SplitLines(body)) + Visible(SplitLines(EntryLine(e)))
  {
    assert HeadingAt(body, at);
    AppendAtEnd(body, e, at);
    var line := EntryLine(e);
    if EndsLine(body[at..]) {
      var text := body[..|body| - 1];
      assert body == text + "\n";
      LinesBehind(text, line);
      SpaceAtEnd(text, '\n');
      assert "" + (line + "\n") == line + "\n";
    } else {
      LinesBehind(body, line);
      Assoc(body, "\n", line + "\n");
    }
  }

  lemma {:induction false} NewSectionShape(text: string, gap: string, h: string, line: string)
    ensures text + (gap + gap) + h + (gap + gap) + line + gap ==
            text + gap + (gap + (h + (gap + gap) + (line + gap)))
  {
  }

  lemma {:induction false} UnloggedLines(body: string, e: Entry)
    requires FirstHeading(body, 0) == None
    ensures RStrip(body) <= Append(body, e)
    ensures Visible(SplitLines(Append(body, e))) ==
            Visible(SplitLines(body)) + ([HEADING] + Visible(SplitLines(EntryLine(e))))
  {
    HeadingIsLine();
    NewSectionShape(RStrip(body), "\n", HEADING, EntryLine(e));
    assert "\n" + "\n" == "\n\n";
    NewSectionLines(RStrip(body), HEADING, EntryLine(e));
    VisibleStripped(body);
  }

  /**
    An append changes nothing of the body before its trailing white space, and with a log there nothing of
    the body at all: its visible lines stay in order, then comes the heading if there was none, then the entry.
   */
  lemma {:induction false} AppendKeepsTheRest(body: string, e: Entry)
    ensures (if HasHeading(body) then body else RStrip(body)) <= Append(body, e)
    ensures Visible(SplitLines(Append(body, e))) ==
            Visible(SplitLines(body)) +
            ((if HasHeading(body) then [] else [HEADING]) + Visible(SplitLines(EntryLine(e))))
  {
    HeadingFound(body);
    if FirstHeading(body, 0).Some? {
      LoggedLines(body, e, FirstHeading(body, 0).value);
      assert [] + Visible(SplitLines(EntryLine(e))) == Visible(SplitLines(EntryLine(e)));
    } else {
      UnloggedLines(body, e);
    }
  }
}
