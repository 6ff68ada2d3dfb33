/**
  Converting a branch that still appended to the frozen baseline (ledger/conversion.py): find the rows
  the branch added, prove all of them convertible, write one event file each, restore the baseline.
 */
module Conversion {
  import opened Wrappers
  import opened LedgerEvents
  import opened Ledger
  import opened LedgerRuns
  import opened Sequences
  import Text

  // ---------------------------------------------------------------- which rows the branch added

  /** A line of the baseline with its number among the non-blank rows. */
  datatype Numbered = Numbered(number: nat, line: string)

  function Lines(rows: seq<Numbered>): seq<string> {
    seq(|rows|, i requires 0 <= i < |rows| => rows[i].line)
  }

  /** Taking a match as soon as it is offered never spoils a later one. */
  lemma {:induction false} GreedyStep(base: seq<string>, matched: nat, working: seq<string>, i: nat)
    requires matched <= |base| && i < |working|
    ensures Subsequence(base[matched..], working[i..]) <==>
            if matched < |base| && base[matched] == working[i] then Subsequence(base[matched + 1..], working[i + 1..])
            else Subsequence(base[matched..], working[i + 1..])
  {
    var a, b := base[matched..], working[i..];
    assert b[1..] == working[i + 1..];
    if matched == |base| {
      assert a == [];
      NothingLeft(b);
      NothingLeft(working[i + 1..]);
    } else {
      assert a[1..] == base[matched + 1..];
      if base[matched] == working[i] {
        MatchHead(a, b);
      } else {
        SkipHead(a, b);
      }
    }
  }

  lemma {:induction false} LinesSnoc(rows: seq<Numbered>, row: Numbered)
    ensures Lines(rows + [row]) == Lines(rows) + [row.line]
  {
  }

  lemma {:induction false} GreedyEnd(base: seq<string>, matched: nat, working: seq<string>)
    requires matched <= |base|
    ensures Subsequence(base[matched..], working[|working|..]) <==> matched == |base|
  {
    assert working[|working|..] == [];
    NothingToMatch(base[matched..]);
  }

  ghost predicate NumberedFrom(rows: seq<Numbered>, working: seq<string>, n: nat)
    requires n <= |working|
  {
    && (forall i :: 0 <= i < |rows| ==> 1 <= rows[i].number <= n && working[rows[i].number - 1] == rows[i].line)
    && (forall i, j :: 0 <= i < j < |rows| ==> rows[i].number < rows[j].number)
  }

  /** The state of the loop after `i` working rows. */
  ghost predicate Matching(base: seq<string>, working: seq<string>, i: nat, matched: nat, appended: seq<Numbered>) {
    && i <= |working| && matched <= |base|
    && (Subsequence(base, working) <==> Subsequence(base[matched..], working[i..]))
    && multiset(Lines(appended)) + multiset(base[..matched]) == multiset(working[..i])
    && NumberedFrom(appended, working, i)
  }

  lemma {:induction false} MatchingNext(
    base: seq<string>, working: seq<string>, i: nat, matched: nat, appended: seq<Numbered>)
    requires i < |working| && Matching(base, working, i, matched, appended)
    ensures matched < |base| && working[i] == base[matched] ==> Matching(base, working, i + 1, matched + 1, appended)
    ensures !(matched < |base| && working[i] == base[matched]) ==>
              Matching(base, working, i + 1, matched, appended + [Numbered(i + 1, working[i])])
  {
    GreedyStep(base, matched, working, i);
    assert working[..i + 1] == working[..i] + [working[i]];
    if matched < |base| && working[i] == base[matched] {
      assert base[..matched + 1] == base[..matched] + [base[matched]];
    } else {
      LinesSnoc(appended, Numbered(i + 1, working[i]));
    }
  }

  /**
    The greedy match.  It accepts iff the base rows are a subsequence of the working rows, and what it
    calls appended is then exactly the multiset difference, in file order with the right line numbers.
   */
  method FindAppended(base: seq<string>, working: seq<string>) returns (accepted: bool, appended: seq<Numbered>)
    ensures accepted <==> Subsequence(base, working)
    ensures accepted ==> multiset(Lines(appended)) + multiset(base) == multiset(working)
    ensures NumberedFrom(appended, working, |working|)
  {
    var matched: nat := 0;
    appended := [];
    assert base[0..] == base && working[0..] == working;
    for i := 0 to |working|
      invariant Matching(base, working, i, matched, appended)
    {
      MatchingNext(base, working, i, matched, appended);
      if matched < |base| && working[i] == base[matched] {
        matched := matched + 1;
      } else {
        appended := appended + [Numbered(i + 1, working[i])];
      }
    }
    GreedyEnd(base, matched, working);
    assert working[..|working|] == working && base[..|base|] == base;
    accepted := matched == |base|;
  }

  // ---------------------------------------------------------------- what may be converted

  /** What `json.loads` makes of a line; an object without a usable event-id has the empty id. */
  datatype Json = Malformed | NotObject | Object(event: Event)

  /** A row of the baseline that reads as an event with an id of its own. */
  predicate HasOwnId(parse: string -> Json, line: string) {
    parse(line).Object? && parse(line).event.id != ""
  }

  function RowsOf(parse: string -> Json, lines: seq<string>): (rows: seq<Event>)
    requires forall i :: 0 <= i < |lines| ==> parse(lines[i]).Object?
    ensures |rows| == |lines| && forall i :: 0 <= i < |lines| ==> rows[i] == parse(lines[i]).event
  {
    seq(|lines|, i requires 0 <= i < |lines| => parse(lines[i]).event)
  }

  /** The row a dictionary keeps when later rows replace earlier ones of the same id. */
  function LastWith(rows: seq<Event>, id: string): (r: Option<Event>)
    ensures r.Some? <==> HasId(rows, id)
    ensures r.Some? ==> r.value in rows && r.value.id == id
  {
    if rows == [] then None
    else if rows[|rows| - 1].id == id then Some(rows[|rows| - 1])
    else
      assert forall k :: 0 <= k < |rows| - 1 ==> rows[..|rows| - 1][k] == rows[k];
      LastWith(rows[..|rows| - 1], id)
  }

  datatype Verdict = Reject(code: string) | AlreadyPresent(id: string) | Take(event: Event)

  predicate Clashes(known: Option<Event>, e: Event) {
    known.Some? && IdentityOf(known.value) != IdentityOf(e)
  }

  function FileAt(files: map<string, Event>, id: string): Option<Event> {
    if id in files then Some(files[id]) else None
  }

  /** The checks on one appended row, in the order they are made. */
  function Judge(
    parse: string -> Json, line: string, base: seq<Event>, history: seq<Event>, seen: seq<Event>,
    files: map<string, Event>): Verdict
  {
    match parse(line)
    case Malformed => Reject("invalid JSON")
    case NotObject => Reject("CON-LEDGER-002")
    case Object(e) =>
      if e.id == "" then Reject("CON-LEDGER-002")
      else if !CurrentOk(e) then Reject("CON-LEDGER-003/005")
      else if Clashes(LastWith(base, e.id), e) || Clashes(LastWith(history, e.id), e) ||
          Clashes(LastWith(seen, e.id), e) then Reject("CON-LEDGER-010")
      else if Clashes(FileAt(files, e.id), e) then Reject("CON-LEDGER-010")
      else if HasId(base, e.id) || HasId(seen, e.id) then AlreadyPresent(e.id)
      else Take(e)
  }

  // ---------------------------------------------------------------- what is refused, and what becomes of each row

  /** The row that stands for an id among these, the last one, says something else. */
  ghost predicate Contradicted(rows: seq<Event>, e: Event) {
    exists k :: IsLast(rows, k) && k.id == e.id && IdentityOf(k) != IdentityOf(e)
  }

  /**
    A row is refused: it is no JSON object with an id, no valid current event, or an event that contradicts the
    base, the history, what is planned so far, or the event file of its id.
   */
  ghost predicate Refused(
    parse: string -> Json, line: string, base: seq<Event>, history: seq<Event>, planned: seq<Event>,
    files: map<string, Event>)
  {
    !parse(line).Object? ||
    var e := parse(line).event;
    || e.id == "" || !e.content.strict || e.status != Unreleased || e.release != None
    || Contradicted(base, e) || Contradicted(history, e) || Contradicted(planned, e)
    || (e.id in files && IdentityOf(files[e.id]) != IdentityOf(e))
  }

  lemma {:induction false} LastWithIs(rows: seq<Event>, id: string, k: Event)
    ensures LastWith(rows, id) == Some(k) <==> IsLast(rows, k) && k.id == id
    decreases |rows|
  {
    if rows != [] {
      var init, last := rows[..|rows| - 1], rows[|rows| - 1];
      assert rows == init + [last];
      LastWithIs(init, id, k);
      if IsLast(rows, k) && k.id == id {
        var n :| 0 <= n < |rows| && rows[n] == k && forall l :: n < l < |rows| ==> rows[l].id != k.id;
        assert n < |init| ==> init[n] == k && last.id != id;
      }
      if LastWith(rows, id) == Some(k) {
        LastMore(init, last, k);
      }
    }
  }

  lemma {:induction false} ClashesLast(rows: seq<Event>, e: Event)
    ensures Clashes(LastWith(rows, e.id), e) <==> Contradicted(rows, e)
  {
    if LastWith(rows, e.id).Some? {
      LastWithIs(rows, e.id, LastWith(rows, e.id).value);
    }
    forall k | IsLast(rows, k) && k.id == e.id ensures LastWith(rows, e.id) == Some(k) {
      LastWithIs(rows, e.id, k);
    }
  }

  /** Exactly the refused rows are rejected; of the others, those of a known id are copies. */
  lemma {:induction false} JudgeRefuses(
    parse: string -> Json, line: string, base: seq<Event>, history: seq<Event>, seen: seq<Event>,
    files: map<string, Event>)
    ensures var verdict := Judge(parse, line, base, history, seen, files);
            if Refused(parse, line, base, history, seen, files) then verdict.Reject?
            else if HasId(base, parse(line).event.id) || HasId(seen, parse(line).event.id) then
              verdict == AlreadyPresent(parse(line).event.id)
            else verdict == Take(parse(line).event)
  {
    if parse(line).Object? {
      var e := parse(line).event;
      ClashesLast(base, e);
      ClashesLast(history, e);
      ClashesLast(seen, e);
    }
  }

  /** What proving the whole set yields: the events to write, the ids dropped as copies, and the rejected lines. */
  datatype Proof = Proof(plan: seq<Event>, present: seq<string>, rejected: seq<Numbered>)

  function Prove(
    parse: string -> Json, rows: seq<Numbered>, base: seq<Event>, history: seq<Event>, files: map<string, Event>): Proof
  {
    if rows == [] then Proof([], [], [])
    else
      var p, row := Prove(parse, rows[..|rows| - 1], base, history, files), rows[|rows| - 1];
      match Judge(parse, row.line, base, history, p.plan, files)
      case Reject(_) => p.(rejected := p.rejected + [row])
      case AlreadyPresent(id) => p.(present := p.present + [id])
      case Take(e) => p.(plan := p.plan + [e])
  }

  /** What one appended row adds to the proof: a rejection, a copy to drop, or an event to write. */
  ghost predicate Judged(
    parse: string -> Json, row: Numbered, base: seq<Event>, history: seq<Event>, files: map<string, Event>, p: Proof,
    q: Proof)
  {
    if Refused(parse, row.line, base, history, p.plan, files) then q == p.(rejected := p.rejected + [row])
    else
      var e := parse(row.line).event;
      if HasId(base, e.id) || HasId(p.plan, e.id) then q == p.(present := p.present + [e.id])
      else q == p.(plan := p.plan + [e])
  }

  /** The appended rows are judged one after the other, each against what was planned before it. */
  ghost predicate Trace(
    parse: string -> Json, rows: seq<Numbered>, base: seq<Event>, history: seq<Event>, files: map<string, Event>,
    ps: seq<Proof>)
  {
    && |ps| == |rows| + 1 && ps[0] == Proof([], [], [])
    && forall i :: 0 <= i < |rows| ==> Judged(parse, rows[i], base, history, files, ps[i], ps[i + 1])
  }

  /** Proving leaves the trace that the rules demand, and only that one. */
  lemma {:induction false} ProvesTrace(
    parse: string -> Json, rows: seq<Numbered>, base: seq<Event>, history: seq<Event>, files: map<string, Event>)
    ensures exists ps :: Trace(parse, rows, base, history, files, ps)
    ensures forall ps :: Trace(parse, rows, base, history, files, ps) ==>
              ps[|rows|] == Prove(parse, rows, base, history, files)
    decreases |rows|
  {
    if rows == [] {
      assert Trace(parse, rows, base, history, files, [Proof([], [], [])]);
    } else {
      var init, last := rows[..|rows| - 1], rows[|rows| - 1];
      ProvesTrace(parse, init, base, history, files);
      var before := Prove(parse, init, base, history, files);
      JudgeRefuses(parse, last.line, base, history, before.plan, files);
      var ps :| Trace(parse, init, base, history, files, ps);
      assert Trace(parse, rows, base, history, files, ps + [Prove(parse, rows, base, history, files)]);
      forall qs | Trace(parse, rows, base, history, files, qs)
        ensures qs[|rows|] == Prove(parse, rows, base, history, files) {
        TraceInit(parse, rows, base, history, files, qs);
        assert qs[..|rows|][|init|] == qs[|init|];
      }
    }
  }

  lemma {:induction false} TraceInit(
    parse: string -> Json, rows: seq<Numbered>, base: seq<Event>, history: seq<Event>, files: map<string, Event>,
    ps: seq<Proof>)
    requires rows != [] && Trace(parse, rows, base, history, files, ps)
    ensures Trace(parse, rows[..|rows| - 1], base, history, files, ps[..|rows|])
  {
  }

  /** Nothing is rejected iff no row is refused when its turn comes. */
  ghost predicate NoneRefused(
    parse: string -> Json, rows: seq<Numbered>, base: seq<Event>, history: seq<Event>, files: map<string, Event>,
    ps: seq<Proof>)
    requires |ps| == |rows| + 1
  {
    forall i :: 0 <= i < |rows| ==> !Refused(parse, rows[i].line, base, history, ps[i].plan, files)
  }

  lemma {:induction false} RejectedGrows(
    parse: string -> Json, rows: seq<Numbered>, base: seq<Event>, history: seq<Event>, files: map<string, Event>,
    ps: seq<Proof>)
    requires Trace(parse, rows, base, history, files, ps)
    ensures ps[|rows|].rejected == [] <==> NoneRefused(parse, rows, base, history, files, ps)
    decreases |rows|
  {
    if rows != [] {
      var init, n := rows[..|rows| - 1], |rows| - 1;
      TraceInit(parse, rows, base, history, files, ps);
      RejectedGrows(parse, init, base, history, files, ps[..|rows|]);
      assert Judged(parse, rows[n], base, history, files, ps[n], ps[n + 1]);
      assert NoneRefused(parse, rows, base, history, files, ps) <==>
          NoneRefused(parse, init, base, history, files, ps[..|rows|]) &&
          !Refused(parse, rows[n].line, base, history, ps[n].plan, files) by {
        assert forall i :: 0 <= i < n ==> init[i] == rows[i] && ps[..|rows|][i] == ps[i];
      }
    }
  }

  /**
    Every planned event is a valid current event of its own id that came from an appended row and clashes with
    no file.
   */
  ghost predicate PlanOk(plan: seq<Event>, history: seq<Event>, files: map<string, Event>) {
    && DistinctIds(plan)
    && (forall e :: e in plan ==>
          CurrentOk(e) && !Clashes(FileAt(files, e.id), e) && !Clashes(LastWith(history, e.id), e))
  }

  /** The meaning of an accepted row: it is in the base, or in the plan, under its identity. */
  ghost predicate Kept(e: Event, base: seq<Event>, plan: seq<Event>) {
    exists k :: (k in base || k in plan) && IdentityOf(k) == IdentityOf(e)
  }

  lemma {:induction false} PlanIsOk(
    parse: string -> Json, rows: seq<Numbered>, base: seq<Event>, history: seq<Event>, files: map<string, Event>)
    ensures PlanOk(Prove(parse, rows, base, history, files).plan, history, files)
    ensures forall e :: e in Prove(parse, rows, base, history, files).plan ==> !HasId(base, e.id)
    decreases |rows|
  {
    if rows != [] {
      PlanIsOk(parse, rows[..|rows| - 1], base, history, files);
    }
  }

  /** One of the rows reads as this event. */
  ghost predicate ReadFrom(parse: string -> Json, rows: seq<Numbered>, e: Event) {
    exists i :: 0 <= i < |rows| && parse(rows[i].line) == Object(e)
  }

  lemma {:induction false} ReadFromMore(parse: string -> Json, init: seq<Numbered>, last: Numbered, e: Event)
    ensures ReadFrom(parse, init + [last], e) <==> ReadFrom(parse, init, e) || parse(last.line) == Object(e)
  {
    var rows := init + [last];
    assert rows[|init|] == last;
    if ReadFrom(parse, init, e) {
      var i :| 0 <= i < |init| && parse(init[i].line) == Object(e);
      assert rows[i] == init[i];
    }
  }

  /** Nothing is planned that no appended row says. */
  lemma {:induction false} PlanComesFromRows(
    parse: string -> Json, rows: seq<Numbered>, base: seq<Event>, history: seq<Event>, files: map<string, Event>,
    e: Event)
    requires e in Prove(parse, rows, base, history, files).plan
    ensures ReadFrom(parse, rows, e)
    decreases |rows|
  {
    var init, last := rows[..|rows| - 1], rows[|rows| - 1];
    assert rows == init + [last];
    ReadFromMore(parse, init, last, e);
    if e in Prove(parse, init, base, history, files).plan {
      PlanComesFromRows(parse, init, base, history, files, e);
    }
  }

  lemma {:induction false} KeptMore(e: Event, base: seq<Event>, plan: seq<Event>, more: seq<Event>)
    requires Kept(e, base, plan) && plan <= more
    ensures Kept(e, base, more)
  {
    var k :| (k in base || k in plan) && IdentityOf(k) == IdentityOf(e);
    assert k in base || k in more;
  }

  /** When nothing is rejected, every appended row is held by the base or by the plan. */
  lemma {:induction false} AcceptedRowsKept(
    parse: string -> Json, rows: seq<Numbered>, base: seq<Event>, history: seq<Event>, files: map<string, Event>,
    i: nat)
    requires Prove(parse, rows, base, history, files).rejected == [] && i < |rows|
    ensures HasOwnId(parse, rows[i].line) &&
            Kept(parse(rows[i].line).event, base, Prove(parse, rows, base, history, files).plan)
    decreases |rows|
  {
    var init, last := rows[..|rows| - 1], rows[|rows| - 1];
    var before, after := Prove(parse, init, base, history, files), Prove(parse, rows, base, history, files);
    TakenIsPlanned(parse, rows, base, history, files);
    if i < |init| {
      AcceptedRowsKept(parse, init, base, history, files, i);
      KeptMore(parse(init[i].line).event, base, before.plan, after.plan);
    } else {
      RowKept(parse, last.line, base, history, before.plan, files);
    }
  }

  lemma {:induction false} RowKept(
    parse: string -> Json, line: string, base: seq<Event>, history: seq<Event>, seen: seq<Event>,
    files: map<string, Event>)
    requires !Judge(parse, line, base, history, seen, files).Reject?
    ensures HasOwnId(parse, line)
    ensures var plan := match Judge(parse, line, base, history, seen, files) case Take(e) => seen + [e] case _ => seen;
            Kept(parse(line).event, base, plan)
  {
    var e := parse(line).event;
    if HasId(base, e.id) {
      assert LastWith(base, e.id).value in base;
    } else if HasId(seen, e.id) {
      assert LastWith(seen, e.id).value in seen;
    } else {
      assert e in seen + [e];
    }
  }

  // ---------------------------------------------------------------- what the loader sees

  predicate Blank(line: string) {
    Text.IsBlank(line) || Text.Strip(line) == "[]"
  }

  /** `_lines`: the rows of a text. */
  function NonBlank(text: seq<string>): seq<string> {
    if text == [] then [] else NonBlank(text[..|text| - 1]) + if Blank(text[|text| - 1]) then [] else [text[|text| - 1]]
  }

  /** The rows are the lines that are not blank, in order and as often as they stand there. */
  lemma {:induction false} NonBlankKeeps(text: seq<string>, line: string)
    ensures Subsequence(NonBlank(text), text)
    ensures multiset(NonBlank(text))[line] == if Blank(line) then 0 else multiset(text)[line]
    decreases |text|
  {
    if text == [] {
      NothingLeft(text);
    } else {
      var init, last := text[..|text| - 1], text[|text| - 1];
      assert text == init + [last];
      NonBlankKeeps(init, line);
      SubsequenceSnoc(NonBlank(init), init, last);
      assert NonBlank(init) + [] == NonBlank(init);
    }
  }

  lemma {:induction false} NonBlankLines(text: seq<string>)
    ensures forall line :: line in NonBlank(text) <==> line in text && !Blank(line)
    decreases |text|
  {
    if text != [] {
      NonBlankLines(text[..|text| - 1]);
      assert text == text[..|text| - 1] + [text[|text| - 1]];
    }
  }

  /** `_legacy_rows`: the event of line `number`; `synth` gives rows without an event-id their synthetic one. */
  function EventAt(parse: string -> Json, synth: (nat, string) -> string, number: nat, line: string): Event
    requires parse(line).Object?
  {
    var e := parse(line).event;
    if e.id == "" then e.(id := synth(number, line)) else e
  }

  function LegacyRows(parse: string -> Json, synth: (nat, string) -> string, text: seq<string>): seq<Event> {
    if text == [] then []
    else
      var init, line := text[..|text| - 1], text[|text| - 1];
      LegacyRows(parse, synth, init) +
      if Blank(line) || !parse(line).Object? then [] else [EventAt(parse, synth, |text|, line)]
  }

  /** A row without an event-id of its own; its synthetic one depends on its line number. */
  predicate IdLess(parse: string -> Json, line: string) {
    !Blank(line) && parse(line).Object? && parse(line).event.id == ""
  }

  ghost predicate OwnRow(parse: string -> Json, rows: seq<string>, e: Event) {
    e.id != "" && exists line :: line in rows && parse(line) == Object(e)
  }

  ghost predicate SynthRow(parse: string -> Json, synth: (nat, string) -> string, text: seq<string>, e: Event) {
    exists n: nat :: n < |text| && IdLess(parse, text[n]) && e == EventAt(parse, synth, n + 1, text[n])
  }

  lemma {:induction false} SynthRowMore(
    parse: string -> Json, synth: (nat, string) -> string, init: seq<string>, line: string, e: Event)
    ensures SynthRow(parse, synth, init + [line], e) <==>
            SynthRow(parse, synth, init, e) || (IdLess(parse, line) && e == EventAt(parse, synth, |init| + 1, line))
  {
    var text := init + [line];
    assert text[|init|] == line;
    if n: nat :| n < |init| && IdLess(parse, init[n]) && e == EventAt(parse, synth, n + 1, init[n]) {
      assert text[n] == init[n];
    }
    if n: nat :| n < |text| && IdLess(parse, text[n]) && e == EventAt(parse, synth, n + 1, text[n]) {
      assert n < |init| ==> text[n] == init[n];
    }
  }

  lemma {:induction false} OwnRowMore(parse: string -> Json, rows: seq<string>, line: string, e: Event)
    ensures OwnRow(parse, rows + [line], e) <==> OwnRow(parse, rows, e) || (e.id != "" && parse(line) == Object(e))
  {
    assert line in rows + [line];
    assert forall l :: l in rows ==> l in rows + [line];
  }

  /** What the loader makes of the baseline: rows with ids of their own, wherever they stand, and synthetic ones. */
  lemma {:induction false} LegacyRowsSplit(
    parse: string -> Json, synth: (nat, string) -> string, text: seq<string>, e: Event)
    requires e.id != ""
    ensures e in LegacyRows(parse, synth, text) <==>
            OwnRow(parse, NonBlank(text), e) || SynthRow(parse, synth, text, e)
    decreases |text|
  {
    if text != [] {
      var init, line := text[..|text| - 1], text[|text| - 1];
      assert text == init + [line];
      LegacyRowsSplit(parse, synth, init, e);
      SynthRowMore(parse, synth, init, line, e);
      OwnRowMore(parse, NonBlank(init), line, e);
      assert NonBlank(init) + [] == NonBlank(init);
    }
  }

  /** The ids the loader reports, each with its content. */
  ghost predicate Loads(
    parse: string -> Json, synth: (nat, string) -> string, text: seq<string>, files: map<string, Event>, i: Identity)
  {
    || (exists e :: e in LegacyRows(parse, synth, text) && IdentityOf(e) == i)
    || (exists id :: id in files && IdentityOf(files[id]) == i)
  }

  ghost predicate OwnLoads(parse: string -> Json, rows: seq<string>, files: map<string, Event>, i: Identity) {
    || (exists e :: OwnRow(parse, rows, e) && IdentityOf(e) == i)
    || (exists id :: id in files && IdentityOf(files[id]) == i)
  }

  ghost predicate SynthLoads(parse: string -> Json, synth: (nat, string) -> string, text: seq<string>, i: Identity) {
    exists n: nat :: n < |text| && IdLess(parse, text[n]) && IdentityOf(EventAt(parse, synth, n + 1, text[n])) == i
  }

  lemma {:induction false} LoadsSplit(
    parse: string -> Json, synth: (nat, string) -> string, text: seq<string>, files: map<string, Event>, i: Identity)
    requires i.id != ""
    ensures Loads(parse, synth, text, files, i) <==>
            OwnLoads(parse, NonBlank(text), files, i) || SynthLoads(parse, synth, text, i)
  {
    if e :| e in LegacyRows(parse, synth, text) && IdentityOf(e) == i {
      LegacyRowsSplit(parse, synth, text, e);
    }
    if e :| OwnRow(parse, NonBlank(text), e) && IdentityOf(e) == i {
      LegacyRowsSplit(parse, synth, text, e);
    }
    if n: nat :| n < |text| && IdLess(parse, text[n]) && IdentityOf(EventAt(parse, synth, n + 1, text[n])) == i {
      LegacyRowsSplit(parse, synth, text, EventAt(parse, synth, n + 1, text[n]));
    }
  }

  function RowsText(baseline: Option<seq<string>>): seq<string> {
    if baseline.Some? then baseline.value else []
  }

  datatype Snapshot = Snapshot(baseline: Option<seq<string>>, files: map<string, Event>)

  ghost predicate SameMeaning(parse: string -> Json, synth: (nat, string) -> string, s: Snapshot, t: Snapshot) {
    forall i: Identity :: i.id != "" ==>
      (Loads(parse, synth, RowsText(s.baseline), s.files, i) <==> Loads(parse, synth, RowsText(t.baseline), t.files, i))
  }

  /** The plan as event files; a file that already exists is kept. */
  function WithPlan(plan: seq<Event>, files: map<string, Event>): map<string, Event> {
    if plan == [] then files
    else
      var before, e := WithPlan(plan[..|plan| - 1], files), plan[|plan| - 1];
      if e.id in before then before else before[e.id := e]
  }

  lemma {:induction false} WithPlanHolds(plan: seq<Event>, files: map<string, Event>)
    requires FilesOk(files) && DistinctIds(plan)
    ensures FilesOk(WithPlan(plan, files))
    ensures forall id :: id in files ==> id in WithPlan(plan, files) && WithPlan(plan, files)[id] == files[id]
    ensures forall e :: e in plan ==>
              e.id in WithPlan(plan, files) && (e.id !in files ==> WithPlan(plan, files)[e.id] == e)
    ensures forall id :: id in WithPlan(plan, files) && id !in files ==> WithPlan(plan, files)[id] in plan
    decreases |plan|
  {
    if plan != [] {
      var init, last := plan[..|plan| - 1], plan[|plan| - 1];
      WithPlanHolds(init, files);
      assert plan == init + [last];
    }
  }

  /** Everything the proof establishes before the first write. */
  ghost predicate Provable(
    parse: string -> Json, working: seq<string>, base: seq<string>, appended: seq<Numbered>, plan: seq<Event>,
    files: map<string, Event>)
  {
    && (forall line :: line in base ==> parse(line).Object?)
    && multiset(Lines(appended)) + multiset(base) == multiset(working)
    && FilesOk(files) && DistinctIds(plan)
    && (forall e :: e in plan ==> !Clashes(FileAt(files, e.id), e))
    && (forall e :: e in plan ==> ReadFrom(parse, appended, e))
    && (forall i :: 0 <= i < |appended| ==>
          HasOwnId(parse, appended[i].line) && HeldBy(parse, parse(appended[i].line).event, base, plan))
  }

  ghost predicate HeldBy(parse: string -> Json, e: Event, base: seq<string>, plan: seq<Event>) {
    exists k :: ((exists line :: line in base && parse(line) == Object(k)) || k in plan) &&
        IdentityOf(k) == IdentityOf(e)
  }

  lemma {:induction false} WorkingLines(working: seq<string>, base: seq<string>, appended: seq<Numbered>)
    requires multiset(Lines(appended)) + multiset(base) == multiset(working)
    ensures forall line :: line in working <==>
              line in base || exists i :: 0 <= i < |appended| && appended[i].line == line
  {
    forall line
        ensures line in working <==> line in base || exists i :: 0 <= i < |appended| && appended[i].line == line {
      assert line in working <==> line in multiset(working);
      assert line in base <==> line in multiset(base);
      assert line in Lines(appended) <==> line in multiset(Lines(appended));
      if i :| 0 <= i < |appended| && appended[i].line == line {
        assert Lines(appended)[i] == line;
      }
    }
  }

  /** Writing any part of the plan does not change what is loaded. */
  lemma {:induction false} WritesKeepMeaning(
    parse: string -> Json, synth: (nat, string) -> string, text: seq<string>, base: seq<string>,
    appended: seq<Numbered>,
    plan: seq<Event>, files: map<string, Event>, k: nat, i: Identity)
    requires Provable(parse, NonBlank(text), base, appended, plan, files) && k <= |plan| && i.id != ""
    ensures Loads(parse, synth, text, files, i) <==> Loads(parse, synth, text, WithPlan(plan[..k], files), i)
  {
    LoadsSplit(parse, synth, text, files, i);
    LoadsSplit(parse, synth, text, WithPlan(plan[..k], files), i);
    WorkingLines(NonBlank(text), base, appended);
    WithPlanHolds(plan[..k], files);
    var after := WithPlan(plan[..k], files);
    if id :| id in after && IdentityOf(after[id]) == i {
      if id !in files {
        assert after[id] in plan && ReadFrom(parse, appended, after[id]);
        var n :| 0 <= n < |appended| && parse(appended[n].line) == Object(after[id]);
        assert appended[n].line in NonBlank(text);
        assert OwnRow(parse, NonBlank(text), after[id]);
      }
    }
    if id :| id in files && IdentityOf(files[id]) == i {
      assert id in after && IdentityOf(after[id]) == i;
    }
  }

  /** A planned event is on disk under its identity once the plan is written. */
  lemma {:induction false} PlannedIsWritten(plan: seq<Event>, files: map<string, Event>, e: Event)
    requires FilesOk(files) && DistinctIds(plan) && e in plan && !Clashes(FileAt(files, e.id), e)
    ensures e.id in WithPlan(plan, files) && IdentityOf(WithPlan(plan, files)[e.id]) == IdentityOf(e)
  {
    WithPlanHolds(plan, files);
  }

  /** Restoring the baseline after the whole plan is written keeps every row that has an id of its own. */
  lemma {:induction false} RestoreKeepsOwn(
    parse: string -> Json, working: seq<string>, base: seq<string>, appended: seq<Numbered>,
    plan: seq<Event>, files: map<string, Event>, i: Identity)
    requires Provable(parse, working, base, appended, plan, files) && i.id != ""
    ensures OwnLoads(parse, working, WithPlan(plan, files), i) <==> OwnLoads(parse, base, WithPlan(plan, files), i)
  {
    WorkingLines(working, base, appended);
    if e :| OwnRow(parse, base, e) && IdentityOf(e) == i {
      var line :| line in base && parse(line) == Object(e);
      assert line in working;
      assert OwnRow(parse, working, e);
    }
    if e :| OwnRow(parse, working, e) && IdentityOf(e) == i {
      var line :| line in working && parse(line) == Object(e);
      if line in base {
        assert OwnRow(parse, base, e);
      } else {
        var n :| 0 <= n < |appended| && appended[n].line == line;
        AppendedIsHeld(parse, base, plan, files, e);
      }
    }
  }

  lemma {:induction false} AppendedIsHeld(
    parse: string -> Json, base: seq<string>, plan: seq<Event>, files: map<string, Event>, e: Event)
    requires FilesOk(files) && DistinctIds(plan) && forall e :: e in plan ==> !Clashes(FileAt(files, e.id), e)
    requires HeldBy(parse, e, base, plan) && e.id != ""
    ensures OwnLoads(parse, base, WithPlan(plan, files), IdentityOf(e))
  {
    var k :|
      ((exists line :: line in base && parse(line) == Object(k)) || k in plan) && IdentityOf(k) == IdentityOf(e);
    if k in plan {
      PlannedIsWritten(plan, files, k);
    } else {
      assert OwnRow(parse, base, k);
    }
  }

  /** Every row without an id of its own stands at the same line in both texts. */
  ghost predicate SamePlaces(parse: string -> Json, a: seq<string>, b: seq<string>) {
    && (forall n :: 0 <= n < |a| && IdLess(parse, a[n]) ==> n < |b| && b[n] == a[n])
    && (forall n :: 0 <= n < |b| && IdLess(parse, b[n]) ==> n < |a| && a[n] == b[n])
  }

  /** In two texts, equal synthetic ids come from the same line at the same number. */
  ghost predicate ToldApart(parse: string -> Json, synth: (nat, string) -> string, a: seq<string>, b: seq<string>) {
    forall n: nat, m: nat ::
      (n < |a| && m < |b| && IdLess(parse, a[n]) && IdLess(parse, b[m]) && synth(n + 1, a[n]) == synth(m + 1, b[m])) ==>
        n == m && a[n] == b[m]
  }

  /** No row, no event file has this id. */
  ghost predicate NobodysId(parse: string -> Json, rows: seq<string>, files: map<string, Event>, id: string) {
    id != "" && id !in files && forall line :: line in rows && parse(line).Object? ==> parse(line).event.id != id
  }

  ghost predicate OwnSynthetic(
    parse: string -> Json, synth: (nat, string) -> string, text: seq<string>, rows: seq<string>,
    files: map<string, Event>)
  {
    forall n: nat :: n < |text| && IdLess(parse, text[n]) ==> NobodysId(parse, rows, files, synth(n + 1, text[n]))
  }

  /**
    What the loader relies on: the synthetic ids of two texts tell line numbers and lines apart and are not
    also written in a row of either text or in an event file.
   */
  ghost predicate Synthetic(
    parse: string -> Json, synth: (nat, string) -> string, a: seq<string>, b: seq<string>, files: map<string, Event>)
  {
    && ToldApart(parse, synth, a, b)
    && OwnSynthetic(parse, synth, a, NonBlank(a) + NonBlank(b), files)
    && OwnSynthetic(parse, synth, b, NonBlank(a) + NonBlank(b), files)
  }

  lemma {:induction false} SamePlacesLoad(
    parse: string -> Json, synth: (nat, string) -> string, a: seq<string>, b: seq<string>, i: Identity)
    requires SamePlaces(parse, a, b) && SynthLoads(parse, synth, a, i)
    ensures SynthLoads(parse, synth, b, i)
  {
    var n: nat :| n < |a| && IdLess(parse, a[n]) && IdentityOf(EventAt(parse, synth, n + 1, a[n])) == i;
    assert b[n] == a[n];
  }

  /** A synthetic id of one text is loaded from the other only by the same row at the same line. */
  lemma {:induction false} SynthPlace(
    parse: string -> Json, synth: (nat, string) -> string, a: seq<string>, b: seq<string>, files: map<string, Event>,
    n: nat)
    requires n < |a| && IdLess(parse, a[n]) && ToldApart(parse, synth, a, b) && FilesOk(files)
    requires NobodysId(parse, NonBlank(b), files, synth(n + 1, a[n]))
    requires Loads(parse, synth, b, files, IdentityOf(EventAt(parse, synth, n + 1, a[n])))
    ensures n < |b| && b[n] == a[n]
  {
    var i := IdentityOf(EventAt(parse, synth, n + 1, a[n]));
    LoadsSplit(parse, synth, b, files, i);
    assert SynthLoads(parse, synth, b, i);
    var m: nat :| m < |b| && IdLess(parse, b[m]) && IdentityOf(EventAt(parse, synth, m + 1, b[m])) == i;
    assert synth(m + 1, b[m]) == synth(n + 1, a[n]);
  }

  lemma {:induction false} PlacesKept(
    parse: string -> Json, synth: (nat, string) -> string, a: seq<string>, b: seq<string>, files: map<string, Event>)
    requires ToldApart(parse, synth, a, b) && OwnSynthetic(parse, synth, a, NonBlank(b), files) && FilesOk(files)
    requires forall i: Identity :: i.id != "" && Loads(parse, synth, a, files, i) ==> Loads(parse, synth, b, files, i)
    ensures forall n :: 0 <= n < |a| && IdLess(parse, a[n]) ==> n < |b| && b[n] == a[n]
  {
    forall n | 0 <= n < |a| && IdLess(parse, a[n]) ensures n < |b| && b[n] == a[n] {
      var i := IdentityOf(EventAt(parse, synth, n + 1, a[n]));
      assert NobodysId(parse, NonBlank(b), files, synth(n + 1, a[n]));
      assert SynthLoads(parse, synth, a, i);
      LoadsSplit(parse, synth, a, files, i);
      SynthPlace(parse, synth, a, b, files, n);
    }
  }

  /** Writing planned events gives nobody a synthetic id. */
  lemma {:induction false} OwnSyntheticStays(
    parse: string -> Json, synth: (nat, string) -> string, text: seq<string>, a: seq<string>, b: seq<string>,
    appended: seq<Numbered>, plan: seq<Event>, files: map<string, Event>, rows: seq<string>)
    requires OwnSynthetic(parse, synth, text, a + b, files) && Provable(parse, a, b, appended, plan, files)
    requires rows == a || rows == b
    ensures OwnSynthetic(parse, synth, text, rows, WithPlan(plan, files))
  {
    var after := WithPlan(plan, files);
    WithPlanHolds(plan, files);
    WorkingLines(a, b, appended);
    forall n: nat | n < |text| && IdLess(parse, text[n])
      ensures NobodysId(parse, rows, after, synth(n + 1, text[n])) {
      var id := synth(n + 1, text[n]);
      assert NobodysId(parse, a + b, files, id);
      forall k | k in after && k !in files ensures k != id {
        PlannedIdIsWritten(parse, appended, plan, files, k);
        var line :| line in Lines(appended) && parse(line).Object? && parse(line).event.id == k;
        var j :| 0 <= j < |appended| && appended[j].line == line;
        assert line in a + b;
      }
      assert forall line :: line in rows ==> line in a + b;
    }
  }

  lemma {:induction false} PlannedIdIsWritten(
    parse: string -> Json, appended: seq<Numbered>, plan: seq<Event>, files: map<string, Event>, id: string)
    requires FilesOk(files) && DistinctIds(plan) && forall e :: e in plan ==> ReadFrom(parse, appended, e)
    requires id in WithPlan(plan, files) && id !in files
    ensures exists line :: line in Lines(appended) && parse(line).Object? && parse(line).event.id == id
  {
    WithPlanHolds(plan, files);
    var e := WithPlan(plan, files)[id];
    assert e in plan && ReadFrom(parse, appended, e);
    var i :| 0 <= i < |appended| && parse(appended[i].line) == Object(e);
    assert Lines(appended)[i] == appended[i].line;
  }

  /** Two baselines load the same beside the same files, but for rows whose synthetic ids move. */
  ghost predicate LoadAlike(
    parse: string -> Json, synth: (nat, string) -> string, a: seq<string>, b: seq<string>, files: map<string, Event>)
  {
    forall i: Identity :: i.id != "" ==> (Loads(parse, synth, a, files, i) <==> Loads(parse, synth, b, files, i))
  }

  /**
    Restoring the baseline after the whole plan is written does not change what is loaded when every row
    without an id of its own keeps its line number, and, synthetic ids being unique in what is loaded, only then.
   */
  lemma {:induction false} RestoreKeepsMeaning(
    parse: string -> Json, synth: (nat, string) -> string, text: seq<string>, baseText: seq<string>,
    appended: seq<Numbered>, plan: seq<Event>, files: map<string, Event>)
    requires Provable(parse, NonBlank(text), NonBlank(baseText), appended, plan, files)
    ensures SamePlaces(parse, text, baseText) ==> LoadAlike(parse, synth, text, baseText, WithPlan(plan, files))
    ensures Synthetic(parse, synth, text, baseText, files) &&
              LoadAlike(parse, synth, text, baseText, WithPlan(plan, files)) ==>
              SamePlaces(parse, text, baseText)
  {
    var after := WithPlan(plan, files);
    WithPlanHolds(plan, files);
    if SamePlaces(parse, text, baseText) {
      forall i: Identity | i.id != ""
        ensures Loads(parse, synth, text, after, i) <==> Loads(parse, synth, baseText, after, i) {
        LoadsSplit(parse, synth, text, after, i);
        LoadsSplit(parse, synth, baseText, after, i);
        RestoreKeepsOwn(parse, NonBlank(text), NonBlank(baseText), appended, plan, files, i);
        if SynthLoads(parse, synth, text, i) { SamePlacesLoad(parse, synth, text, baseText, i); }
        if SynthLoads(parse, synth, baseText, i) { SamePlacesLoad(parse, synth, baseText, text, i); }
      }
    }
    if Synthetic(parse, synth, text, baseText, files) && LoadAlike(parse, synth, text, baseText, after) {
      var a, b := NonBlank(text), NonBlank(baseText);
      OwnSyntheticStays(parse, synth, text, a, b, appended, plan, files, b);
      OwnSyntheticStays(parse, synth, baseText, a, b, appended, plan, files, a);
      PlacesKept(parse, synth, text, baseText, after);
      PlacesKept(parse, synth, baseText, text, after);
    }
  }

  // ---------------------------------------------------------------- a row whose synthetic id moves

  const NO_ID := "{}"

  const WITH_ID := "{\"event-id\": \"e\"}"

  const SAMPLE := Event("e", "", Content("", true), Unreleased, None, [])

  function SampleParse(line: string): Json {
    if line == NO_ID then Object(SAMPLE.(id := "")) else if line == WITH_ID then Object(SAMPLE) else Malformed
  }

  /** `legacy-line-{line}-{digest}`, for the first two lines of a text that only has `{}` without an id. */
  function SampleSynth(number: nat, line: string): string {
    if number == 1 then "legacy-line-1-44136fa3" else "legacy-line-2-44136fa3"
  }

  lemma {:induction false} SampleRows()
    ensures NonBlank([WITH_ID, NO_ID]) == [WITH_ID, NO_ID] && NonBlank([NO_ID]) == [NO_ID]
    ensures IdLess(SampleParse, NO_ID) && !IdLess(SampleParse, WITH_ID)
  {
    assert NO_ID[1] == '}' && WITH_ID[|WITH_ID| - 1] == '}' && NO_ID[0] == WITH_ID[0] == '{';
    assert Text.RStrip(NO_ID) == NO_ID && Text.RStrip(WITH_ID) == WITH_ID;
    assert Text.Strip(NO_ID) == NO_ID && Text.Strip(WITH_ID) == WITH_ID;
    assert [WITH_ID, NO_ID][..1] == [WITH_ID] && [WITH_ID][..0] == [] && [NO_ID][..0] == [];
    assert NonBlank([]) == [];
    assert NonBlank([NO_ID]) == NonBlank([]) + [NO_ID];
    assert NonBlank([WITH_ID]) == NonBlank([]) + [WITH_ID];
    assert NonBlank([WITH_ID, NO_ID]) == NonBlank([WITH_ID]) + [NO_ID];
  }

  lemma {:induction false} SampleProvable()
    ensures Provable(SampleParse, [WITH_ID, NO_ID], [NO_ID], [Numbered(1, WITH_ID)], [SAMPLE], map[])
  {
    var appended := [Numbered(1, WITH_ID)];
    assert Lines(appended) == [WITH_ID];
    assert [WITH_ID, NO_ID] == [WITH_ID] + [NO_ID];
    assert SampleParse(WITH_ID) == Object(SAMPLE) && appended[0].line == WITH_ID;
    assert ReadFrom(SampleParse, appended, SAMPLE);
    assert SAMPLE in [SAMPLE] && HeldBy(SampleParse, SAMPLE, [NO_ID], [SAMPLE]);
  }

  lemma {:induction false} SampleIds(l: string, k: string)
    ensures SampleSynth(1, l) != SampleSynth(2, k)
    ensures SampleSynth(1, l) != "" && SampleSynth(1, l) != "e" && SampleSynth(2, l) != "" && SampleSynth(2, l) != "e"
  {
    assert SampleSynth(1, l)[12] == '1' && SampleSynth(2, k)[12] == '2';
    assert |SampleSynth(1, l)| > 1 && |SampleSynth(2, l)| > 1;
  }

  lemma {:induction false} SampleNobodys(n: nat, line: string, rows: seq<string>)
    requires n == 1 || n == 2
    ensures NobodysId(SampleParse, rows, map[], SampleSynth(n, line))
  {
    SampleIds(line, line);
    forall l | l in rows && SampleParse(l).Object? ensures SampleParse(l).event.id != SampleSynth(n, line) {
      assert SampleParse(l).event.id == "" || SampleParse(l).event.id == "e";
    }
  }

  lemma {:induction false} SampleToldApart(a: seq<string>, b: seq<string>)
    requires a == [WITH_ID, NO_ID] && b == [NO_ID]
    ensures ToldApart(SampleParse, SampleSynth, a, b)
  {
    SampleRows();
    assert a[0] == WITH_ID && a[1] == NO_ID;
    SampleIds(b[0], a[1]);
  }

  lemma {:induction false} SampleSynthetic()
    ensures Synthetic(SampleParse, SampleSynth, [WITH_ID, NO_ID], [NO_ID], map[])
  {
    var a, b := [WITH_ID, NO_ID], [NO_ID];
    SampleToldApart(a, b);
    var rows := NonBlank(a) + NonBlank(b);
    forall n: nat | n < |a| ensures NobodysId(SampleParse, rows, map[], SampleSynth(n + 1, a[n])) {
      SampleNobodys(n + 1, a[n], rows);
    }
    SampleNobodys(1, b[0], rows);
  }

  /** A row that was appended in front of a row without an id changes that row's synthetic id by leaving. */
  lemma {:induction false} AppendedInFront()
    ensures var text, baseText, appended := [WITH_ID, NO_ID], [NO_ID], [Numbered(1, WITH_ID)];
            && Provable(SampleParse, NonBlank(text), NonBlank(baseText), appended, [SAMPLE], map[])
            && Synthetic(SampleParse, SampleSynth, text, baseText, map[])
            && !LoadAlike(SampleParse, SampleSynth, text, baseText, WithPlan([SAMPLE], map[]))
  {
    SampleRows();
    SampleProvable();
    SampleSynthetic();
    RestoreKeepsMeaning(
      SampleParse, SampleSynth, [WITH_ID, NO_ID], [NO_ID], [Numbered(1, WITH_ID)], [SAMPLE], map[]);
    assert [WITH_ID, NO_ID][1] == NO_ID;
  }

  /** Judging a row against files that already hold part of the plan gives the same verdict. */
  lemma {:induction false} RerunJudges(
    parse: string -> Json, line: string, base: seq<Event>, history: seq<Event>, seen: seq<Event>,
    files: map<string, Event>,
    plan: seq<Event>, after: map<string, Event>)
    requires DistinctIds(plan) && seen <= plan && (forall e :: e in plan ==> !HasId(base, e.id))
    requires forall id :: id in files ==> id in after && after[id] == files[id]
    requires forall id :: id in after && id !in files ==> after[id] in plan && after[id].id == id
    requires !Judge(parse, line, base, history, seen, files).Reject?
    requires Judge(parse, line, base, history, seen, files).Take? ==> parse(line).event in plan
    ensures Judge(parse, line, base, history, seen, after) == Judge(parse, line, base, history, seen, files)
  {
    var e := parse(line).event;
    if e.id in after && e.id !in files {
      if HasId(seen, e.id) {
        SameInPlan(plan, LastWith(seen, e.id).value, after[e.id]);
      } else {
        SameInPlan(plan, e, after[e.id]);
      }
    }
  }

  /** Proving again over files that already hold part of the plan gives the same proof. */
  lemma {:induction false} RerunProves(
    parse: string -> Json, rows: seq<Numbered>, base: seq<Event>, history: seq<Event>, files: map<string, Event>,
    plan: seq<Event>, k: nat)
    requires FilesOk(files) && PlanOk(plan, history, files) && k <= |plan|
    requires forall e :: e in plan ==> !HasId(base, e.id)
    requires Prove(parse, rows, base, history, files).rejected == [] &&
              Prove(parse, rows, base, history, files).plan <= plan
    ensures Prove(parse, rows, base, history, WithPlan(plan[..k], files)) == Prove(parse, rows, base, history, files)
    decreases |rows|
  {
    if rows != [] {
      var init, line := rows[..|rows| - 1], rows[|rows| - 1].line;
      RerunProves(parse, init, base, history, files, plan, k);
      WithPlanHolds(plan[..k], files);
      TakenIsPlanned(parse, rows, base, history, files);
      RerunJudges(parse, line, base, history, Prove(parse, init, base, history, files).plan, files, plan,
          WithPlan(plan[..k], files));
    }
  }

  lemma {:induction false} TakenIsPlanned(
    parse: string -> Json, rows: seq<Numbered>, base: seq<Event>, history: seq<Event>, files: map<string, Event>)
    requires rows != [] && Prove(parse, rows, base, history, files).rejected == []
    ensures var before, all := Prove(parse, rows[..|rows| - 1], base, history, files),
              Prove(parse, rows, base, history, files);
            var verdict := Judge(parse, rows[|rows| - 1].line, base, history, before.plan, files);
            && !verdict.Reject? && before.rejected == [] && before.plan <= all.plan
            && (verdict.Take? ==> parse(rows[|rows| - 1].line).event in all.plan)
  {
    var before := Prove(parse, rows[..|rows| - 1], base, history, files);
    var e := parse(rows[|rows| - 1].line).event;
    assert e in before.plan + [e];
  }

  lemma {:induction false} SameInPlan(plan: seq<Event>, a: Event, b: Event)
    requires DistinctIds(plan) && a in plan && b in plan && a.id == b.id
    ensures a == b
  {
  }

  /** However far a crash let the writes get, writing the plan again ends with the same files. */
  lemma {:induction false} RerunWrites(plan: seq<Event>, files: map<string, Event>, k: nat)
    requires FilesOk(files) && DistinctIds(plan) && k <= |plan|
    ensures WithPlan(plan, WithPlan(plan[..k], files)) == WithPlan(plan, files)
  {
    var part := WithPlan(plan[..k], files);
    WithPlanHolds(plan[..k], files);
    WithPlanHolds(plan, part);
    WithPlanHolds(plan, files);
    var twice, once := WithPlan(plan, part), WithPlan(plan, files);
    forall id ensures id in twice <==> id in once {
      if id in twice && id !in files {
        assert if id in part then part[id] in plan else twice[id] in plan;
      }
      if id in once && id !in files {
        assert once[id] in plan;
      }
    }
    forall id | id in once ensures twice[id] == once[id] {
      if id !in files {
        assert once[id] in plan;
        if id in part {
          SameInPlan(plan, part[id], once[id]);
        }
      }
    }
  }
}
