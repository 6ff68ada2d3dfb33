/** Reading the end of an NDJSON journal backwards in chunks (foundation/io.py). */
module NdjsonTail {
  import opened Bytes
  import opened Wrappers
  import opened Sequences

  /** What decoding and parsing one stripped, non-empty line yields. */
  datatype Parsed<R> = Malformed | NotMapping | Mapping(row: R)

  // ---------------------------------------------------------------- lines

  /** `bytes.split(b"\n")`. */
  function Split(s: seq<byte>): (lines: seq<seq<byte>>)
    ensures lines != []
  {
    if s == [] then [[]]
    else
      var rest := Split(s[1..]);
      if s[0] == LF then [[]] + rest else [[s[0]] + rest[0]] + rest[1..]
  }

  /** Lines as text mode sees them: LF, CR LF and a lone CR all end a line. */
  function TextLines(s: seq<byte>): (lines: seq<seq<byte>>)
    ensures lines != []
    decreases |s|
  {
    if s == [] then [[]]
    else if s[0] == LF then [[]] + TextLines(s[1..])
    else if s[0] == CR then [[]] + TextLines(if |s| > 1 && s[1] == LF then s[2..] else s[1..])
    else
      var rest := TextLines(s[1..]);
      [[s[0]] + rest[0]] + rest[1..]
  }

  /** Join the last line of `x` to the first of `y`. */
  function Glue(x: seq<seq<byte>>, y: seq<seq<byte>>): seq<seq<byte>>
    requires x != [] && y != []
  {
    x[..|x| - 1] + [x[|x| - 1] + y[0]] + y[1..]
  }

  function Extended(b: byte, lines: seq<seq<byte>>): seq<seq<byte>>
    requires lines != []
  {
    [[b] + lines[0]] + lines[1..]
  }

  lemma {:induction false} GlueExtended(b: byte, x: seq<seq<byte>>, y: seq<seq<byte>>)
    requires x != [] && y != []
    ensures Glue(Extended(b, x), y) == Extended(b, Glue(x, y))
  {
    if |x| == 1 {
      assert [b] + x[0] + y[0] == [b] + (x[0] + y[0]);
      assert Glue(x, y) == [x[0] + y[0]] + y[1..];
      assert Extended(b, x) == [[b] + x[0]];
    } else {
      assert Glue(x, y)[0] == x[0];
      assert Glue(x, y)[1..] == x[1..|x| - 1] + [x[|x| - 1] + y[0]] + y[1..];
      assert Extended(b, x)[..|x| - 1] == [[b] + x[0]] + x[1..|x| - 1];
    }
  }

  lemma {:induction false} GlueLine(x: seq<seq<byte>>, y: seq<seq<byte>>)
    requires x != [] && y != []
    ensures Glue([[]] + x, y) == [[]] + Glue(x, y)
  {
    assert ([[]] + x)[..|x|] == [[]] + x[..|x| - 1];
  }

  lemma {:induction false} SplitAppend(a: seq<byte>, b: seq<byte>)
    ensures Split(a + b) == Glue(Split(a), Split(b))
  {
    if a == [] {
      assert a + b == b;
      assert Split(a)[0] + Split(b)[0] == Split(b)[0];
      assert Split(b) == [Split(b)[0]] + Split(b)[1..];
    } else {
      SplitAppend(a[1..], b);
      assert (a + b)[1..] == a[1..] + b;
      if a[0] == LF {
        GlueLine(Split(a[1..]), Split(b));
      } else {
        GlueExtended(a[0], Split(a[1..]), Split(b));
      }
    }
  }

  lemma {:induction false} FirstLineIsOne(s: seq<byte>)
    ensures Split(Split(s)[0]) == [Split(s)[0]]
  {
    if s != [] && s[0] != LF {
      FirstLineIsOne(s[1..]);
      assert Split(s)[0][1..] == Split(s[1..])[0];
    }
  }

  /** Carrying only the first, possibly incomplete, line of a chunk over to the next chunk loses nothing. */
  lemma {:induction false} CarryFirstLine(earlier: seq<byte>, pending: seq<byte>)
    ensures Split(earlier + pending) == Split(earlier + Split(pending)[0]) + Split(pending)[1..]
  {
    SplitAppend(earlier, pending);
    SplitAppend(earlier, Split(pending)[0]);
    FirstLineIsOne(pending);
  }

  // ---------------------------------------------------------------- rows

  function RowIn<R>(parse: seq<byte> -> Parsed<R>, raw: seq<byte>): seq<R> {
    match parse(raw) case Mapping(row) => [row] case _ => []
  }

  function RowOf<R>(parse: seq<byte> -> Parsed<R>, line: seq<byte>): seq<R> {
    if Strip(line) == [] then [] else RowIn(parse, Strip(line))
  }

  /** The mapping rows of some lines, in order; other lines are skipped. */
  function RowsOf<R>(parse: seq<byte> -> Parsed<R>, lines: seq<seq<byte>>): seq<R> {
    if lines == [] then [] else RowOf(parse, lines[0]) + RowsOf(parse, lines[1..])
  }

  function Last<T>(s: seq<T>, n: nat): seq<T> {
    if |s| <= n then s else s[|s| - n..]
  }

  function Reverse<T>(s: seq<T>): seq<T> {
    seq(|s|, i requires 0 <= i < |s| => s[|s| - 1 - i])
  }

  lemma {:induction false} RowsOfCons<R>(parse: seq<byte> -> Parsed<R>, line: seq<byte>, lines: seq<seq<byte>>)
    ensures RowsOf(parse, [line] + lines) == RowOf(parse, line) + RowsOf(parse, lines)
  {
    assert ([line] + lines)[1..] == lines;
  }

  lemma {:induction false} RowsOfAppend<R>(parse: seq<byte> -> Parsed<R>, a: seq<seq<byte>>, b: seq<seq<byte>>)
    ensures RowsOf(parse, a + b) == RowsOf(parse, a) + RowsOf(parse, b)
  {
    if a == [] {
      assert a + b == b;
    } else {
      RowsOfAppend(parse, a[1..], b);
      assert a + b == [a[0]] + (a[1..] + b);
      RowsOfCons(parse, a[0], a[1..] + b);
      Assoc(RowOf(parse, a[0]), RowsOf(parse, a[1..]), RowsOf(parse, b));
    }
  }

  lemma {:induction false} ReverseSnoc<T>(s: seq<T>, x: T)
    ensures Reverse(s + [x]) == [x] + Reverse(s)
  {
  }

  lemma {:induction false} ReverseLength<T>(s: seq<T>)
    ensures |Reverse(s)| == |s|
  {
  }

  lemma {:induction false} LastOfMore<T>(a: seq<T>, b: seq<T>, n: nat)
    ensures |b| >= n ==> Last(a + b, n) == Last(b, n)
    ensures |a + b| <= n ==> Last(a + b, n) == a + b
  {
    if |b| >= n {
      assert (a + b)[|a| + |b| - n..] == b[|b| - n..];
    }
  }

  /** `rows`, newest first, are the last rows of `lines`; when there are fewer than `limit`, they are all of them. */
  ghost predicate Holds<R>(parse: seq<byte> -> Parsed<R>, rows: seq<R>, lines: seq<seq<byte>>, limit: nat) {
    && |rows| <= limit
    && (|rows| < limit ==> Reverse(rows) == RowsOf(parse, lines))
    && Reverse(rows) == Last(RowsOf(parse, lines), limit)
  }

  /** Considering one earlier line. */
  lemma {:induction false} HoldsNext<R>(
    parse: seq<byte> -> Parsed<R>, rows: seq<R>, line: seq<byte>, lines: seq<seq<byte>>, limit: nat)
    requires Holds(parse, rows, lines, limit) && |rows| < limit
    ensures Holds(parse, rows + RowOf(parse, line), [line] + lines, limit)
  {
    assert ([line] + lines)[1..] == lines;
    var row := RowOf(parse, line);
    ReverseLength(rows);
    if row == [] {
      assert rows + row == rows && row + RowsOf(parse, lines) == RowsOf(parse, lines);
    } else {
      ReverseSnoc(rows, row[0]);
      assert rows + row == rows + [row[0]] && row + RowsOf(parse, lines) == [row[0]] + RowsOf(parse, lines);
      LastOfMore(row, RowsOf(parse, lines), limit);
    }
  }

  /** Enough rows stay enough when more lines are put in front. */
  lemma {:induction false} HoldsEnough<R>(
    parse: seq<byte> -> Parsed<R>, rows: seq<R>, earlier: seq<seq<byte>>, lines: seq<seq<byte>>, limit: nat)
    requires Holds(parse, rows, lines, limit) && |rows| == limit
    ensures Holds(parse, rows, earlier + lines, limit)
  {
    ReverseLength(rows);
    RowsOfAppend(parse, earlier, lines);
    LastOfMore(RowsOf(parse, earlier), RowsOf(parse, lines), limit);
  }

  /** One chunk's complete lines, newest first, until the limit is reached. */
  method TakeRows<R>(
    parse: seq<byte> -> Parsed<R>, lines: seq<seq<byte>>, ghost after: seq<seq<byte>>, collected: seq<R>, limit: nat)
    returns (rows: seq<R>)
    requires |collected| < limit && Holds(parse, collected, after, limit)
    ensures Holds(parse, rows, lines + after, limit)
  {
    rows := collected;
    var j: nat := |lines|;
    ghost var seen := after;
    while j > 0
      invariant j <= |lines| && |rows| < limit
      invariant lines[..j] + seen == lines + after
      invariant Holds(parse, rows, seen, limit)
    {
      j := j - 1;
      HoldsNext(parse, rows, lines[j], seen, limit);
      seen := [lines[j]] + seen;
      assert lines[..j] + seen == lines[..j + 1] + seen[1..];
      var raw := Strip(lines[j]);
      if raw != [] && parse(raw).Mapping? {
        rows := rows + [parse(raw).row];
        if |rows| >= limit {
          HoldsEnough(parse, rows, lines[..j], seen, limit);
          return;
        }
      } else {
        assert rows + RowOf(parse, lines[j]) == rows;
      }
    }
    assert seen == lines + after;
  }

  /**
    Reading one more chunk: its lines but the first join those after it, and at the front of the file the first
    does too.
   */
  lemma {:induction false} ChunkSplits(
    content: seq<byte>, position: nat, size: nat, pending: seq<byte>, after: seq<seq<byte>>)
    requires size <= position <= |content| && Split(content) == Split(content[..position] + pending) + after
    ensures var earlier, lines := content[..position - size], Split(content[position - size..position] + pending);
            && (position > size ==> Split(content) == Split(earlier + lines[0]) + (lines[1..] + after))
            && (position == size ==> Split(content) == lines + after)
  {
    var earlier, now := content[..position - size], content[position - size..position] + pending;
    assert content[..position] + pending == earlier + now;
    if position > size {
      CarryFirstLine(earlier, now);
      var carried, lines := Split(earlier + Split(now)[0]), Split(now);
      assert carried + lines[1..] + after == carried + (lines[1..] + after);
    } else {
      assert earlier + now == now;
    }
  }

  /**
    Reverse chunked tail: for every content, limit and positive chunk size, exactly the last `limit`
    mapping rows of the file in file order.
   */
  method Tail<R>(parse: seq<byte> -> Parsed<R>, content: seq<byte>, limit: int, chunk: nat)
    returns (r: Result<seq<R>, string>)
    requires chunk > 0
    ensures limit < 1 ==> r.Err?
    ensures limit >= 1 ==> r == Ok(Last(RowsOf(parse, Split(content)), limit))
  {
    if limit < 1 { return Err("NDJSON tail limit must be a positive integer"); }
    var rows: seq<R> := [];
    var pending: seq<byte> := [];
    var position := |content|;
    ghost var after: seq<seq<byte>> := [];
    assert content[..position] + pending == content;
    assert position > 0 ==> Split(content) + after == Split(content);
    while position > 0 && |rows| < limit
      invariant 0 <= position <= |content|
      invariant position > 0 ==> Split(content) == Split(content[..position] + pending) + after
      invariant position == 0 ==> RowsOf(parse, Split(content)) == RowsOf(parse, after)
      invariant Holds(parse, rows, after, limit)
    {
      var size := if chunk < position then chunk else position;
      ChunkSplits(content, position, size, pending, after);
      position := position - size;
      pending := content[position..position + size] + pending;
      var lines := Split(pending);
      if position > 0 {
        pending := lines[0];
        lines := lines[1..];
      } else {
        pending := [];
      }
      rows := TakeRows(parse, lines, after, rows, limit);
      after := lines + after;
    }
    if position > 0 {
      HoldsEnough(parse, rows, Split(content[..position] + pending), after, limit);
    }
    return Ok(Reverse(rows));
  }

  // ---------------------------------------------------------------- the forward iterator

  /** `iter_ndjson`: every non-blank text line must parse; stops with an error at the first that does not. */
  function Forward<R>(parse: seq<byte> -> Parsed<R>, lines: seq<seq<byte>>): Result<seq<R>, string> {
    if lines == [] then Ok([])
    else if Strip(lines[0]) == [] then Forward(parse, lines[1..])
    else match parse(Strip(lines[0]))
      case Malformed => Err("invalid JSON")
      case NotMapping => Forward(parse, lines[1..])
      case Mapping(row) => match Forward(parse, lines[1..]) case Err(e) => Err(e) case Ok(rows) => Ok([row] + rows)
  }

  // ---------------------------------------------------------------- when the readers agree

  /** The stripped lines that are not empty. */
  function Shown(lines: seq<seq<byte>>): (shown: seq<seq<byte>>)
    ensures forall v :: v in shown ==> v != []
  {
    if lines == [] then []
    else (if Strip(lines[0]) == [] then [] else [Strip(lines[0])]) + Shown(lines[1..])
  }

  function MappingRows<R>(parse: seq<byte> -> Parsed<R>, shown: seq<seq<byte>>): seq<R> {
    if shown == [] then [] else RowIn(parse, shown[0]) + MappingRows(parse, shown[1..])
  }

  lemma {:induction false} MappingRowsOne<R>(parse: seq<byte> -> Parsed<R>, v: seq<byte>)
    ensures MappingRows(parse, [v]) == RowIn(parse, v)
  {
    assert [v][1..] == [];
    assert MappingRows(parse, [v][1..]) == [];
  }

  ghost predicate Accepted<R>(parse: seq<byte> -> Parsed<R>, shown: seq<seq<byte>>) {
    forall v :: v in shown ==> !parse(v).Malformed?
  }

  ghost predicate HasMapping<R>(parse: seq<byte> -> Parsed<R>, shown: seq<seq<byte>>) {
    exists v :: v in shown && parse(v).Mapping?
  }

  lemma {:induction false} ShownCons(line: seq<byte>, lines: seq<seq<byte>>)
    ensures Shown([line] + lines) == (if Strip(line) == [] then [] else [Strip(line)]) + Shown(lines)
  {
    assert ([line] + lines)[1..] == lines;
  }

  lemma {:induction false} RowsOfShown<R>(parse: seq<byte> -> Parsed<R>, lines: seq<seq<byte>>)
    ensures RowsOf(parse, lines) == MappingRows(parse, Shown(lines))
  {
    if lines != [] {
      var v := Strip(lines[0]);
      RowsOfShown(parse, lines[1..]);
      MappingRowsOne(parse, v);
      MappingRowsAppend(parse, if v == [] then [] else [v], Shown(lines[1..]));
    }
  }

  lemma {:induction false} MappingRowsAppend<R>(parse: seq<byte> -> Parsed<R>, a: seq<seq<byte>>, b: seq<seq<byte>>)
    ensures MappingRows(parse, a + b) == MappingRows(parse, a) + MappingRows(parse, b)
  {
    if a == [] {
      assert a + b == b;
    } else {
      assert (a + b)[1..] == a[1..] + b;
      MappingRowsAppend(parse, a[1..], b);
    }
  }

  lemma {:induction false} MappingRowsExist<R>(parse: seq<byte> -> Parsed<R>, shown: seq<seq<byte>>)
    ensures MappingRows(parse, shown) != [] <==> HasMapping(parse, shown)
  {
    if shown != [] {
      MappingRowsExist(parse, shown[1..]);
      assert shown == [shown[0]] + shown[1..];
    }
  }

  /** The forward iterator reads the mapping rows, unless a line it looks at is malformed. */
  lemma {:induction false} ForwardReads<R>(parse: seq<byte> -> Parsed<R>, lines: seq<seq<byte>>)
    ensures Forward(parse, lines).Ok? <==> Accepted(parse, Shown(lines))
    ensures Forward(parse, lines).Ok? ==> Forward(parse, lines).value == RowsOf(parse, lines)
  {
    if lines != [] {
      ForwardReads(parse, lines[1..]);
      assert Shown(lines) == (if Strip(lines[0]) == [] then [] else [Strip(lines[0])]) + Shown(lines[1..]);
    }
  }

  // ---------------------------------------------------------------- text lines inside the lines of the tail

  predicate IsCR(b: byte) {
    b == CR
  }

  /** `brk` ends a text line when `rest` follows. */
  predicate TextBreak(brk: seq<byte>, rest: seq<byte>) {
    brk == [LF] || brk == [CR, LF] || (brk == [CR] && (rest == [] || rest[0] != LF))
  }

  lemma {:induction false} TextFirst(p: seq<byte>, brk: seq<byte>, rest: seq<byte>)
    requires LF !in p && CR !in p && TextBreak(brk, rest)
    ensures TextLines(p + brk + rest) == [p] + TextLines(rest)
    decreases |p|
  {
    var s := p + brk + rest;
    if p == [] {
      assert s == brk + rest;
      assert |brk| == 1 ==> s[1..] == rest;
      assert |brk| == 2 ==> s[2..] == rest;
    } else {
      assert s[1..] == p[1..] + brk + rest;
      TextFirst(p[1..], brk, rest);
      assert [p[0]] + p[1..] == p;
    }
  }

  /** Up to empty lines, the text lines before a line feed and after it do not mix. */
  lemma {:induction false} ShownAtFeed(line: seq<byte>, rest: seq<byte>)
    requires LF !in line
    ensures Shown(TextLines(line + [LF] + rest)) == Shown(TextLines(line)) + Shown(TextLines(rest))
    decreases |line|, 1
  {
    var n := Before(line, IsCR);
    var p := line[..n];
    if n == |line| {
      assert p == line;
      TextFirst(line, [LF], rest);
      OneTextLine(line);
      ShownCons(line, TextLines(rest));
      ShownCons(line, []);
      assert [line] + [] == [line];
    } else {
      var q := line[n + 1..];
      assert line == p + [CR] + q;
      ShownAtCR(p, q, rest);
    }
  }

  lemma {:induction false} ShownAtCRLF(p: seq<byte>, rest: seq<byte>)
    requires LF !in p && CR !in p
    ensures Shown(TextLines(p + [CR] + [] + [LF] + rest)) == Shown(TextLines(p + [CR] + [])) + Shown(TextLines(rest))
  {
    assert p + [CR] + [] + [LF] + rest == p + [CR, LF] + rest;
    TextFirst(p, [CR, LF], rest);
    TextFirst(p, [CR], []);
    ShownCons(p, TextLines(rest));
    ShownCons(p, TextLines([]));
    ShownEmpty();
  }

  lemma {:induction false} ShownAtCR(p: seq<byte>, q: seq<byte>, rest: seq<byte>)
    requires LF !in p && CR !in p && LF !in q
    ensures Shown(TextLines(p + [CR] + q + [LF] + rest)) == Shown(TextLines(p + [CR] + q)) + Shown(TextLines(rest))
    decreases |q| + 1, 0
  {
    if q == [] {
      ShownAtCRLF(p, rest);
    } else {
      var later := q + [LF] + rest;
      Assoc(p + [CR] + q, [LF], rest);
      Assoc(p + [CR], q, [LF] + rest);
      Assoc(q, [LF], rest);
      TextFirst(p, [CR], q);
      TextFirst(p, [CR], later);
      ShownCons(p, TextLines(q));
      ShownCons(p, TextLines(later));
      ShownAtFeed(q, rest);
      Assoc(if Strip(p) == [] then [] else [Strip(p)], Shown(TextLines(q)), Shown(TextLines(rest)));
    }
  }

  lemma {:induction false} ShownEmpty()
    ensures Shown(TextLines([])) == []
  {
    assert TextLines([])[1..] == [];
  }

  /** All text lines inside some lines of the tail. */
  ghost function TextShown(lines: seq<seq<byte>>): seq<seq<byte>> {
    if lines == [] then [] else Shown(TextLines(lines[0])) + TextShown(lines[1..])
  }

  lemma {:induction false} SplitFeed(line: seq<byte>, rest: seq<byte>)
    requires LF !in line
    ensures Split(line + [LF] + rest) == [line] + Split(rest)
  {
    assert line + [LF] + rest == line + ([LF] + rest);
    SplitAppend(line, [LF] + rest);
    OneLine(line);
    assert ([LF] + rest)[1..] == rest;
    assert line + [] == line;
  }

  predicate IsLF(b: byte) {
    b == LF
  }

  /** The forward iterator looks at exactly the text lines inside the lines of the tail. */
  lemma {:induction false} ContentShown(content: seq<byte>)
    ensures Shown(TextLines(content)) == TextShown(Split(content))
    ensures forall line :: line in Split(content) ==> LF !in line
    decreases |content|
  {
    var n := Before(content, IsLF);
    var line := content[..n];
    if n == |content| {
      assert line == content;
      OneLine(content);
      assert [content][1..] == [] && Shown(TextLines(content)) + [] == Shown(TextLines(content));
    } else {
      var rest := content[n + 1..];
      assert content == line + [LF] + rest;
      ContentShown(rest);
      ShownAtFeed(line, rest);
      SplitFeed(line, rest);
      assert ([line] + Split(rest))[1..] == Split(rest);
    }
  }

  /** What stripping a line leaves: nothing, its one visible text line, or more than one with the break between. */
  lemma {:induction false} StripShown(line: seq<byte>)
    requires LF !in line
    ensures var shown := Shown(TextLines(line));
            && (shown == [] ==> Strip(line) == [])
            && (|shown| == 1 ==> Strip(line) == shown[0])
            && (|shown| >= 2 ==> CR in Strip(line))
    decreases |line|
  {
    var n := Before(line, IsCR);
    var p := line[..n];
    if n == |line| {
      OneTextLine(line);
      ShownCons(line, []);
      assert [line] + [] == [line];
    } else {
      var q := line[n + 1..];
      assert line == p + [CR] + q;
      TextFirst(p, [CR], q);
      ShownCons(p, TextLines(q));
      StripShown(q);
      StripParts(p, q);
      var later := Shown(TextLines(q));
      assert |later| == 1 ==> later[0] in later;
      assert later != [] ==> Strip(q) != [];
    }
  }

  lemma {:induction false} StripParts(p: seq<byte>, q: seq<byte>)
    ensures Strip(p) == [] ==> Strip(p + [CR] + q) == Strip(q)
    ensures Strip(q) == [] ==> Strip(p + [CR] + q) == Strip(p)
    ensures Strip(p) != [] && Strip(q) != [] ==> CR in Strip(p + [CR] + q)
  {
    StripSpaces(p);
    StripSpaces(q);
    if Strip(p) == [] {
      StripAfter(p + [CR], q);
    }
    if Strip(q) == [] {
      assert p + [CR] + q == p + ([CR] + q);
      StripBefore(p, [CR] + q);
    }
    if Strip(p) != [] && Strip(q) != [] {
      RStripMore(p + [CR], q);
      LStripKeeps(p, [CR] + RStrip(q));
      assert p + [CR] + RStrip(q) == p + ([CR] + RStrip(q));
    }
  }

  lemma {:induction false} LStripKeeps(p: seq<byte>, t: seq<byte>)
    requires !AllSpaces(p) && t != [] && t[0] == CR
    ensures CR in LStrip(p + t)
    decreases |p|
  {
    if IsSpace(p[0]) {
      assert (p + t)[1..] == p[1..] + t;
      LStripKeeps(p[1..], t);
    } else {
      assert (p + t)[|p|] == CR;
    }
  }

  // ---------------------------------------------------------------- the exact condition

  /**
    What JSON does: a line holding several values, each of them valid on a line of its own, is no value.
   */
  ghost predicate OneValueALine<R>(parse: seq<byte> -> Parsed<R>) {
    forall line: seq<byte> ::
      (LF !in line && |Shown(TextLines(line))| >= 2 && Accepted(parse, Shown(TextLines(line)))) ==>
        parse(Strip(line)).Malformed?
  }

  /** A line of the tail with two or more visible text lines, a mapping among them. */
  ghost predicate Crowded<R>(parse: seq<byte> -> Parsed<R>, line: seq<byte>) {
    |Shown(TextLines(line))| >= 2 && HasMapping(parse, Shown(TextLines(line)))
  }

  lemma {:induction false} LineRows<R>(parse: seq<byte> -> Parsed<R>, line: seq<byte>)
    requires OneValueALine(parse) && LF !in line && Accepted(parse, Shown(TextLines(line)))
    ensures var rows := MappingRows(parse, Shown(TextLines(line)));
            if Crowded(parse, line) then RowOf(parse, line) == [] && rows != [] else RowOf(parse, line) == rows
  {
    var shown := Shown(TextLines(line));
    StripShown(line);
    MappingRowsExist(parse, shown);
    if |shown| == 1 {
      assert shown == [shown[0]];
      MappingRowsOne(parse, shown[0]);
    }
  }

  /** The tail sees no more rows than the iterator, and sees them all exactly when no line is crowded. */
  lemma {:induction false} LinesAgree<R>(parse: seq<byte> -> Parsed<R>, lines: seq<seq<byte>>)
    requires OneValueALine(parse) && (forall line :: line in lines ==> LF !in line)
    requires Accepted(parse, TextShown(lines))
    ensures var rows, all := RowsOf(parse, lines), MappingRows(parse, TextShown(lines));
            if exists line :: line in lines && Crowded(parse, line) then |rows| < |all| else rows == all
  {
    if lines != [] {
      var line, rest := lines[0], lines[1..];
      assert lines == [line] + rest;
      LineRows(parse, line);
      LinesAgree(parse, rest);
      MappingRowsAppend(parse, Shown(TextLines(line)), TextShown(rest));
    }
  }

  lemma {:induction false} LastAll<T>(a: seq<T>, b: seq<T>)
    ensures (forall limit: nat :: Last(a, limit) == Last(b, limit)) <==> a == b
  {
    var limit := |a| + |b|;
    assert Last(a, limit) == a && Last(b, limit) == b;
  }

  /**
    On a file the forward iterator reads without error the two readers agree, for every limit, exactly when
    no line of the file, as line feeds end them, holds a mapping beside another value behind a carriage return.
   */
  lemma {:induction false} TailAgreesWithForward<R>(parse: seq<byte> -> Parsed<R>, content: seq<byte>)
    requires OneValueALine(parse) && Forward(parse, TextLines(content)).Ok?
    ensures var tail, forward := RowsOf(parse, Split(content)), Forward(parse, TextLines(content)).value;
            (forall limit: nat :: Last(tail, limit) == Last(forward, limit)) <==>
            forall line :: line in Split(content) ==> !Crowded(parse, line)
  {
    ForwardReads(parse, TextLines(content));
    RowsOfShown(parse, TextLines(content));
    ContentShown(content);
    LinesAgree(parse, Split(content));
    LastAll(RowsOf(parse, Split(content)), Forward(parse, TextLines(content)).value);
  }

  /** The JSON text of an empty object. */
  const EMPTY_OBJECT: seq<byte> := [123, 125]

  /** A parser that knows no other row. */
  function ParseObject(line: seq<byte>): Parsed<bool> {
    if line == EMPTY_OBJECT then Mapping(true) else Malformed
  }

  lemma {:induction false} OneObjectALine()
    ensures OneValueALine(ParseObject)
  {
    forall line: seq<byte> | LF !in line && |Shown(TextLines(line))| >= 2 ensures ParseObject(Strip(line)).Malformed? {
      StripShown(line);
      assert CR !in EMPTY_OBJECT;
    }
  }

  /** A carriage return alone ends a line only for the forward iterator: there the readers differ. */
  lemma {:induction false} LoneCRDiffers()
    ensures OneValueALine(ParseObject)
    ensures var content := EMPTY_OBJECT + [CR] + EMPTY_OBJECT;
            && content in Split(content) && Crowded(ParseObject, content)
            && Forward(ParseObject, TextLines(content)) == Ok([true, true])
            && RowsOf(ParseObject, Split(content)) == []
  {
    var row := EMPTY_OBJECT;
    var content := row + [CR] + row;
    OneObjectALine();
    OneTextLine(row);
    TextFirst(row, [CR], row);
    assert TextLines(content) == [row, row];
    ShownRow([]);
    ShownRow([row]);
    var shown := Shown([row, row]);
    assert shown == [row, row] && row in shown;
    ForwardReads(ParseObject, TextLines(content));
    RowsOfShown(ParseObject, TextLines(content));
    MappingRowsOne(ParseObject, row);
    MappingRowsAppend(ParseObject, [row], [row]);
    assert [row] + [row] == [row, row] && [true] + [true] == [true, true];
    OneLine(content);
    LineRows(ParseObject, content);
    assert [content][1..] == [];
  }

  lemma {:induction false} ShownRow(more: seq<seq<byte>>)
    ensures Shown([EMPTY_OBJECT] + more) == [EMPTY_OBJECT] + Shown(more)
  {
    assert Strip(EMPTY_OBJECT) == EMPTY_OBJECT;
    ShownCons(EMPTY_OBJECT, more);
  }

  lemma {:induction false} OneLine(s: seq<byte>)
    requires LF !in s
    ensures Split(s) == [s]
  {
    if s != [] {
      OneLine(s[1..]);
      assert [s[0]] + s[1..] == s;
    }
  }

  lemma {:induction false} OneTextLine(s: seq<byte>)
    requires LF !in s && CR !in s
    ensures TextLines(s) == [s]
  {
    if s != [] {
      OneTextLine(s[1..]);
      assert [s[0]] + s[1..] == s;
    }
  }
}
