/** Python's line splitting and stripping, and the "join, trim, add a newline" way of writing lines back. */
module Text {
  import opened Sequences

  /** The characters `str.splitlines` breaks at. */
  predicate IsBreak(c: char) {
    var n := c as int;
    10 <= n <= 13 || 28 <= n <= 30 || n == 0x85 || 0x2028 <= n <= 0x2029
  }

  predicate IsSpace(c: char) {
    var n := c as int;
    || 9 <= n <= 13 || 28 <= n <= 32 || n == 0x85 || n == 0xA0 || n == 0x1680 || 0x2000 <= n <= 0x200A
    || 0x2028 <= n <= 0x2029 || n == 0x202F || n == 0x205F || n == 0x3000
  }

  function RStrip(s: string): (r: string)
    ensures r <= s && (r == "" || !IsSpace(r[|r| - 1]))
  {
    if s != "" && IsSpace(s[|s| - 1]) then RStrip(s[..|s| - 1]) else s
  }

  function LStrip(s: string): string {
    if s != "" && IsSpace(s[0]) then LStrip(s[1..]) else s
  }

  function Strip(s: string): string {
    LStrip(RStrip(s))
  }

  predicate IsBlank(s: string) {
    RStrip(s) == ""
  }

  lemma {:induction false} RStripSpaces(s: string, t: string)
    requires forall i :: 0 <= i < |t| ==> IsSpace(t[i])
    ensures RStrip(s + t) == RStrip(s)
    decreases |t|
  {
    if t == "" {
      assert s + t == s;
    } else {
      assert (s + t)[..|s + t| - 1] == s + t[..|t| - 1];
      RStripSpaces(s, t[..|t| - 1]);
    }
  }

  lemma {:induction false} BlankIsSpaces(s: string)
    ensures IsBlank(s) <==> forall i :: 0 <= i < |s| ==> IsSpace(s[i])
    decreases |s|
  {
    if s != "" && IsSpace(s[|s| - 1]) {
      BlankIsSpaces(s[..|s| - 1]);
    }
  }

  lemma {:induction false} RStripSuffix(a: string, b: string)
    requires !IsBlank(b)
    ensures RStrip(a + b) == a + RStrip(b)
    decreases |b|
  {
    assert b != "";
    if IsSpace(b[|b| - 1]) {
      assert (a + b)[..|a + b| - 1] == a + b[..|b| - 1];
      RStripSuffix(a, b[..|b| - 1]);
    }
  }

  /** What stripping leaves is the end of the text, behind white space if anything was taken off. */
  lemma {:induction false} LStripSuffix(s: string)
    ensures |LStrip(s)| <= |s| && LStrip(s) == s[|s| - |LStrip(s)|..]
    ensures |LStrip(s)| < |s| ==> IsSpace(s[|s| - |LStrip(s)| - 1])
    ensures s != "" && IsSpace(s[0]) ==> |LStrip(s)| < |s|
    decreases |s|
  {
    if s != "" && IsSpace(s[0]) {
      LStripSuffix(s[1..]);
    }
  }

  lemma {:induction false} RStripTwice(s: string)
    ensures RStrip(RStrip(s)) == RStrip(s)
  {
  }

  // ---------------------------------------------------------------- lines

  predicate OneLine(s: string) {
    forall i :: 0 <= i < |s| ==> !IsBreak(s[i])
  }

  /** Where the first line ends. */
  function FirstBreak(s: string): (n: nat)
    ensures n <= |s| && OneLine(s[..n]) && (n < |s| ==> IsBreak(s[n]))
  {
    if s == "" || IsBreak(s[0]) then 0
    else
      var n := FirstBreak(s[1..]);
      assert s[..n + 1] == [s[0]] + s[1..][..n];
      n + 1
  }

  /** A carriage return and line feed pair is one break. */
  function BreakWidth(s: string, n: nat): (w: nat)
    requires n < |s|
    ensures 0 < w && n + w <= |s|
  {
    if s[n] == '\r' && n + 1 < |s| && s[n + 1] == '\n' then 2 else 1
  }

  function SplitLines(s: string): seq<string>
    decreases |s|
  {
    if s == "" then []
    else
      var n := FirstBreak(s);
      if n == |s| then [s] else [s[..n]] + SplitLines(s[n + BreakWidth(s, n)..])
  }

  lemma {:induction false} FirstBreakAt(line: string, rest: string)
    requires OneLine(line) && (rest == "" || IsBreak(rest[0]))
    ensures FirstBreak(line + rest) == |line|
    decreases |line|
  {
    if line != "" {
      assert (line + rest)[1..] == line[1..] + rest;
      FirstBreakAt(line[1..], rest);
    } else {
      assert line + rest == rest;
    }
  }

  /** `brk` is a whole break when `rest` follows it. */
  predicate WholeBreak(brk: string, rest: string) {
    brk == "\r\n" || (|brk| == 1 && IsBreak(brk[0]) && (brk != "\r" || rest == "" || rest[0] != '\n'))
  }

  lemma {:induction false} SplitFirst(line: string, brk: string, rest: string)
    requires OneLine(line) && WholeBreak(brk, rest)
    ensures SplitLines(line + brk + rest) == [line] + SplitLines(rest)
  {
    var s := line + brk + rest;
    assert s == line + (brk + rest);
    FirstBreakAt(line, brk + rest);
    assert s[|line|..] == brk + rest;
    assert BreakWidth(s, |line|) == |brk|;
    assert s[..|line|] == line && s[|line| + |brk|..] == rest;
  }

  /** A line ended by a line feed is the first line. */
  lemma {:induction false} SplitCons(line: string, rest: string)
    requires OneLine(line)
    ensures SplitLines(line + "\n" + rest) == [line] + SplitLines(rest)
  {
    SplitFirst(line, "\n", rest);
  }

  lemma {:induction false} Shift(a: string, b: string, c: string, d: string)
    ensures a + b + c + d == a + (b + c + d) && a + b + c == a + (b + c)
  {
  }

  lemma {:induction false} SplitLater(line: string, brk: string, rest: string, b: string)
    requires OneLine(line) && WholeBreak(brk, rest) && !(brk == "\r" && rest == "")
    requires SplitLines(rest + "\n" + b) == SplitLines(rest + "\n") + SplitLines(b)
    ensures SplitLines(line + brk + rest + "\n" + b) == SplitLines(line + brk + rest + "\n") + SplitLines(b)
  {
    Shift(line + brk, rest, "\n", b);
    SplitFirst(line, brk, rest + "\n" + b);
    SplitFirst(line, brk, rest + "\n");
    Assoc([line], SplitLines(rest + "\n"), SplitLines(b));
  }

  lemma {:induction false} SplitLast(line: string, brk: string, b: string)
    requires OneLine(line) && (brk == "\n" || brk == "\r\n")
    ensures SplitLines(line + brk + b) == SplitLines(line + brk) + SplitLines(b)
  {
    SplitFirst(line, brk, b);
    SplitFirst(line, brk, "");
    assert line + brk + "" == line + brk;
  }

  /** Text that ends a line splits independently of what follows. */
  lemma {:induction false} SplitAtFeed(a: string, b: string)
    ensures SplitLines(a + "\n" + b) == SplitLines(a + "\n") + SplitLines(b)
    decreases |a|
  {
    var n := FirstBreak(a);
    var line, tail := a[..n], a[n..];
    assert a == line + tail;
    if tail == "" {
      assert a == line;
      SplitLast(line, "\n", b);
    } else if tail == "\r" {
      assert a + "\n" == line + "\r\n";
      SplitLast(line, "\r\n", b);
    } else {
      var w := BreakWidth(a, n);
      var brk, rest := a[n..n + w], a[n + w..];
      assert a == line + brk + rest;
      SplitAtFeed(rest, b);
      SplitLater(line, brk, rest, b);
    }
  }

  predicate AllOneLine(lines: seq<string>) {
    forall i :: 0 <= i < |lines| ==> OneLine(lines[i])
  }

  lemma {:induction false} SplitLinesAreLines(s: string)
    ensures AllOneLine(SplitLines(s))
    decreases |s|
  {
    if s != "" && FirstBreak(s) < |s| {
      SplitLinesAreLines(s[FirstBreak(s) + BreakWidth(s, FirstBreak(s))..]);
    } else if s != "" {
      assert s[..|s|] == s;
    }
  }

  // ---------------------------------------------------------------- writing lines back

  function Join(lines: seq<string>): string {
    if lines == [] then ""
    else if |lines| == 1 then lines[0]
    else Join(lines[..|lines| - 1]) + "\n" + lines[|lines| - 1]
  }

  /** `"\n".join(lines).rstrip() + "\n"` */
  function Render(lines: seq<string>): string {
    RStrip(Join(lines)) + "\n"
  }

  /** What a rendered text splits into again: no trailing blank lines, no trailing space on the last line. */
  function TrimEnd(lines: seq<string>): seq<string> {
    if lines == [] then []
    else if IsBlank(lines[|lines| - 1]) then TrimEnd(lines[..|lines| - 1])
    else lines[..|lines| - 1] + [RStrip(lines[|lines| - 1])]
  }

  lemma {:induction false} SplitOne(line: string)
    requires OneLine(line)
    ensures SplitLines(line + "\n") == [line]
  {
    SplitCons(line, "");
    assert line + "\n" + "" == line + "\n";
  }

  lemma {:induction false} SplitJoinStep(init: seq<string>, last: string)
    requires init != [] && OneLine(last) && SplitLines(Join(init) + "\n") == init
    ensures SplitLines(Join(init) + "\n" + last + "\n") == init + [last]
  {
    var text, end := Join(init), last + "\n";
    SplitAtFeed(text, end);
    SplitOne(last);
    Assoc(text + "\n", last, "\n");
  }

  lemma {:induction false} SplitJoin(lines: seq<string>)
    requires lines != [] && AllOneLine(lines)
    ensures SplitLines(Join(lines) + "\n") == lines
    decreases |lines|
  {
    if |lines| == 1 {
      SplitOne(lines[0]);
    } else {
      var init, last := lines[..|lines| - 1], lines[|lines| - 1];
      assert lines == init + [last];
      SplitJoin(init);
      SplitJoinStep(init, last);
    }
  }

  lemma {:induction false} JoinLast(text: string, last: string)
    ensures RStrip(text + "\n" + last) == if IsBlank(last) then RStrip(text) else text + "\n" + RStrip(last)
  {
    if IsBlank(last) {
      BlankIsSpaces(last);
      Assoc(text, "\n", last);
      RStripSpaces(text, "\n" + last);
    } else {
      RStripSuffix(text + "\n", last);
    }
  }

  lemma {:induction false} JoinTrimmed(lines: seq<string>)
    ensures RStrip(Join(lines)) == Join(TrimEnd(lines))
    decreases |lines|
  {
    if lines != [] {
      var init, last := lines[..|lines| - 1], lines[|lines| - 1];
      if |lines| > 1 {
        JoinLast(Join(init), last);
      }
      if IsBlank(last) {
        JoinTrimmed(init);
      } else {
        assert (init + [RStrip(last)])[..|init|] == init;
      }
    }
  }

  lemma {:induction false} TrimEndLines(lines: seq<string>)
    requires AllOneLine(lines)
    ensures AllOneLine(TrimEnd(lines))
    decreases |lines|
  {
    if lines != [] && IsBlank(lines[|lines| - 1]) {
      TrimEndLines(lines[..|lines| - 1]);
    }
  }

  /** Reading back what was written. */
  lemma {:induction false} SplitRendered(lines: seq<string>)
    requires AllOneLine(lines)
    ensures SplitLines(Render(lines)) == if TrimEnd(lines) == [] then [""] else TrimEnd(lines)
  {
    JoinTrimmed(lines);
    TrimEndLines(lines);
    if TrimEnd(lines) == [] {
      SplitCons("", "");
      assert Render(lines) == "" + "\n" + "";
    } else {
      SplitJoin(TrimEnd(lines));
    }
  }

  lemma {:induction false} TrimEndTwice(lines: seq<string>)
    ensures TrimEnd(TrimEnd(lines)) == TrimEnd(lines)
    decreases |lines|
  {
    if lines != [] {
      if IsBlank(lines[|lines| - 1]) {
        TrimEndTwice(lines[..|lines| - 1]);
      } else {
        RStripTwice(lines[|lines| - 1]);
      }
    }
  }

  // ---------------------------------------------------------------- what a reader of the file sees

  /** The non-blank lines, without trailing space. */
  function Visible(lines: seq<string>): seq<string> {
    if lines == [] then []
    else Visible(lines[..|lines| - 1]) + if IsBlank(lines[|lines| - 1]) then [] else [RStrip(lines[|lines| - 1])]
  }

  lemma {:induction false} VisibleAppend(a: seq<string>, b: seq<string>)
    ensures Visible(a + b) == Visible(a) + Visible(b)
    decreases |b|
  {
    if b == [] {
      assert a + b == a;
    } else {
      assert (a + b)[..|a + b| - 1] == a + b[..|b| - 1];
      VisibleAppend(a, b[..|b| - 1]);
    }
  }

  lemma {:induction false} VisibleTrimmed(lines: seq<string>)
    ensures Visible(TrimEnd(lines)) == Visible(lines)
    decreases |lines|
  {
    if lines != [] {
      if IsBlank(lines[|lines| - 1]) {
        VisibleTrimmed(lines[..|lines| - 1]);
      } else {
        RStripTwice(lines[|lines| - 1]);
        assert TrimEnd(lines)[..|lines| - 1] == lines[..|lines| - 1];
      }
    }
  }

  lemma {:induction false} VisibleRendered(lines: seq<string>)
    requires AllOneLine(lines)
    ensures Visible(SplitLines(Render(lines))) == Visible(lines)
  {
    SplitRendered(lines);
    VisibleTrimmed(lines);
    assert [""][..0] == [];
    assert Visible([""]) == Visible([]);
  }

  lemma {:induction false} VisibleOne(line: string)
    ensures Visible([line]) == if IsBlank(line) then [] else [RStrip(line)]
  {
    assert [line][..0] == [];
    assert Visible([]) == [];
  }

  lemma {:induction false} VisibleCons(line: string, a: seq<string>, b: seq<string>)
    requires Visible(a) == Visible(b)
    ensures Visible([line] + a) == Visible([line] + b)
  {
    VisibleAppend([line], a);
    VisibleAppend([line], b);
  }

  /** White space at the end of a single line, or behind it, shows nothing more. */
  lemma {:induction false} SpaceAfterLine(line: string, c: char)
    requires OneLine(line) && IsSpace(c)
    ensures Visible(SplitLines(line + [c])) == Visible(SplitLines(line))
  {
    SplitWhole(line);
    VisibleOne(line);
    if IsBreak(c) {
      SplitFirst(line, [c], "");
      assert line + [c] + "" == line + [c];
    } else {
      SplitWhole(line + [c]);
      VisibleOne(line + [c]);
      RStripSpaces(line, [c]);
    }
  }

  lemma {:induction false} SplitWhole(line: string)
    requires OneLine(line)
    ensures SplitLines(line) == if line == "" then [] else [line]
  {
    FirstBreakAt(line, "");
    assert line + "" == line;
  }

  /** A carriage return that becomes half of a pair still ends the same line. */
  lemma {:induction false} SpaceAfterReturn(line: string)
    requires OneLine(line)
    ensures SplitLines(line + "\r" + "\n") == SplitLines(line + "\r")
  {
    assert line + "\r" + "\n" == line + "\r\n" + "" && line + "\r" == line + "\r" + "";
    SplitFirst(line, "\r\n", "");
    SplitFirst(line, "\r", "");
  }

  lemma {:induction false} SpaceLater(line: string, brk: string, rest: string, c: char)
    requires OneLine(line) && WholeBreak(brk, rest) && !(brk == "\r" && rest == "" && c == '\n')
    requires Visible(SplitLines(rest + [c])) == Visible(SplitLines(rest))
    ensures Visible(SplitLines(line + brk + rest + [c])) == Visible(SplitLines(line + brk + rest))
  {
    assert line + brk + rest + [c] == line + brk + (rest + [c]);
    SplitFirst(line, brk, rest);
    SplitFirst(line, brk, rest + [c]);
    VisibleCons(line, SplitLines(rest + [c]), SplitLines(rest));
  }

  lemma {:induction false} BreakIsWhole(s: string, n: nat)
    requires n < |s| && IsBreak(s[n])
    ensures WholeBreak(s[n..n + BreakWidth(s, n)], s[n + BreakWidth(s, n)..])
    ensures s[n..n + BreakWidth(s, n)] == "\r" && s[n + BreakWidth(s, n)..] == "" ==> s[n..] == "\r"
  {
  }

  /** One more white space at the end of a text shows nothing more. */
  lemma {:induction false} SpaceAtEnd(t: string, c: char)
    requires IsSpace(c)
    ensures Visible(SplitLines(t + [c])) == Visible(SplitLines(t))
    decreases |t|
  {
    var n := FirstBreak(t);
    var line, tail := t[..n], t[n..];
    TailCut(t, n, 0);
    if tail == "" {
      assert t == line;
      SpaceAfterLine(line, c);
    } else if tail == "\r" && c == '\n' {
      SpaceAfterReturn(line);
    } else {
      var w := BreakWidth(t, n);
      var brk, rest := t[n..n + w], t[n + w..];
      CutTwice(t, n, n + w);
      BreakIsWhole(t, n);
      SpaceAtEnd(rest, c);
      SpaceLater(line, brk, rest, c);
    }
  }

  /** Trimming the end of a text takes no visible line away. */
  lemma {:induction false} VisibleStripped(s: string)
    ensures Visible(SplitLines(RStrip(s))) == Visible(SplitLines(s))
    decreases |s|
  {
    if s != "" && IsSpace(s[|s| - 1]) {
      var init, c := s[..|s| - 1], s[|s| - 1];
      assert s == init + [c];
      VisibleStripped(init);
      SpaceAtEnd(init, c);
    }
  }
}
