/** The conversion as it runs on a branch; `trail` records every state of the disk on the way. */
module ConversionStore {
  import opened Wrappers
  import opened Sequences
  import opened LedgerEvents
  import opened Ledger
  import opened Conversion

  datatype Report = Report(converted: seq<string>, rejected: seq<Numbered>, present: seq<string>, restored: bool)

  /** What a conversion that is not refused proves about the branch. */
  ghost function ProofOf(
    parse: string -> Json, appended: seq<Numbered>, base: seq<string>, history: seq<Event>,
    files: map<string, Event>): Proof
    requires forall i :: 0 <= i < |base| ==> parse(base[i]).Object?
  {
    Prove(parse, appended, RowsOf(parse, base), history, files)
  }

  /**
    The report is what judging the appended rows one by one gives: the branch is restored iff no row is refused
    when its turn comes, and then every planned event is reported as converted.
   */
  ghost predicate Reports(
    parse: string -> Json, appended: seq<Numbered>, base: seq<string>, history: seq<Event>,
    files: map<string, Event>, ps: seq<Proof>, r: Report)
    requires forall i :: 0 <= i < |base| ==> parse(base[i]).Object?
  {
    && Trace(parse, appended, RowsOf(parse, base), history, files, ps)
    && var last := ps[|appended|];
      && r.rejected == last.rejected && r.present == last.present
      && (r.restored <==> NoneRefused(parse, appended, RowsOf(parse, base), history, files, ps))
      && |r.converted| == (if r.restored then |last.plan| else 0)
      && forall i :: 0 <= i < |r.converted| ==> r.converted[i] == last.plan[i].id
  }

  lemma {:induction false} ReportsTrace(
    parse: string -> Json, appended: seq<Numbered>, base: seq<string>, history: seq<Event>,
    files: map<string, Event>, p: Proof, r: Report)
    requires forall i :: 0 <= i < |base| ==> parse(base[i]).Object?
    requires p == Prove(parse, appended, RowsOf(parse, base), history, files)
    requires r == if p.rejected == [] then Report(Ids(p.plan), [], p.present, true)
                  else Report([], p.rejected, p.present, false)
    ensures exists ps :: Reports(parse, appended, base, history, files, ps, r)
  {
    var rows := RowsOf(parse, base);
    ProvesTrace(parse, appended, rows, history, files);
    var ps :| Trace(parse, appended, rows, history, files, ps);
    RejectedGrows(parse, appended, rows, history, files, ps);
    assert Reports(parse, appended, base, history, files, ps, r);
  }

  class Branch {
    var baseline: Option<seq<string>>
    var files: map<string, Event>
    var history: seq<Event>
    ghost var trail: seq<Snapshot>

    ghost function Here(): Snapshot
      reads this
    {
      Snapshot(baseline, files)
    }

    /** The rows of the merge base, parsed; an unreadable one stops the conversion. */
    method ParseBase(parse: string -> Json, base: seq<string>) returns (r: Result<seq<Event>, string>)
      ensures r.Ok? <==> forall i :: 0 <= i < |base| ==> parse(base[i]).Object?
      ensures r.Ok? ==> r.value == RowsOf(parse, base)
    {
      var rows: seq<Event> := [];
      for i := 0 to |base|
        invariant |rows| == i && forall k :: 0 <= k < i ==> parse(base[k]).Object? && rows[k] == parse(base[k]).event
      {
        if !parse(base[i]).Object? { return Err("invalid base row"); }
        rows := rows + [parse(base[i]).event];
      }
      return Ok(rows);
    }

    /** Prove the whole set before writing anything. */
    method ProveRows(parse: string -> Json, appended: seq<Numbered>, base: seq<Event>) returns (p: Proof)
      ensures p == Prove(parse, appended, base, history, files)
      ensures exists ps :: Trace(parse, appended, base, history, files, ps) && ps[|appended|] == p
    {
      ProvesTrace(parse, appended, base, history, files);
      p := Proof([], [], []);
      for i := 0 to |appended|
        invariant p == Prove(parse, appended[..i], base, history, files)
      {
        assert appended[..i + 1][..i] == appended[..i];
        match Judge(parse, appended[i].line, base, history, p.plan, files) {
          case Reject(_) => p := p.(rejected := p.rejected + [appended[i]]);
          case AlreadyPresent(id) => p := p.(present := p.present + [id]);
          case Take(e) => p := p.(plan := p.plan + [e]);
        }
      }
      assert appended[..|appended|] == appended;
    }

    /** Write the planned events one at a time. */
    method WritePlan(plan: seq<Event>)
      requires FilesOk(files)
      modifies `files, `trail
      ensures files == WithPlan(plan, old(files))
      ensures trail == old(trail) + PlanStates(baseline, plan, old(files))
    {
      assert plan[..0] == [];
      for i := 0 to |plan|
        invariant files == WithPlan(plan[..i], old(files))
        invariant trail == old(trail) + PlanStates(baseline, plan[..i], old(files))
      {
        PlanStatesSnoc(baseline, plan, i, old(files));
        if plan[i].id !in files {
          files := files[plan[i].id := plan[i]];
        }
        trail := trail + [Here()];
      }
      assert plan[..|plan|] == plan;
    }

    /** Write the plan, then restore the baseline. */
    method Apply(plan: seq<Event>, mergeBase: Option<seq<string>>)
      requires FilesOk(files)
      modifies `baseline, `files, `trail
      ensures Here() == Snapshot(mergeBase, WithPlan(plan, old(files)))
      ensures trail == old(trail) + States(old(Here()), plan, mergeBase)
    {
      ghost var start := Here();
      WritePlan(plan);
      baseline := mergeBase;
      trail := trail + [Here()];
      Assoc(old(trail), PlanStates(start.baseline, plan, start.files), [Here()]);
    }

    /**
      Convert the rows appended since the merge base.  It is refused, writing nothing, exactly when the base
      rows are no subsequence of the branch's, a base row is no object or the history is inconsistent; one
      rejected row also means that nothing is written.  When it goes through, the baseline is the merge base's
      again and the plan is on disk.  The loader sees the same events after every single write, and after the
      restore exactly when every row without an event-id keeps its line number.
     */
    method Convert(parse: string -> Json, ghost synth: (nat, string) -> string, mergeBase: Option<seq<string>>)
      returns (r: Result<Report, string>, ghost appended: seq<Numbered>)
      requires FilesOk(files)
      modifies `baseline, `files, `trail
      ensures r.Ok? <==> old(baseline).None? || Convertible(parse, old(Here()), mergeBase, history)
      ensures r.Err? || !r.value.restored ==> Here() == old(Here()) && trail == old(trail)
      ensures r.Ok? && r.value.rejected != [] ==> !r.value.restored
      ensures r.Ok? && old(baseline).Some? ==> Accepts(parse, old(Here()), mergeBase, appended)
      ensures r.Ok? && old(baseline).Some? ==>
                exists ps :: Reports(parse, appended, NonBlank(RowsText(mergeBase)), history, old(files), ps, r.value)
      ensures r.Ok? && old(baseline).Some? ==>
                var p := ProofOf(parse, appended, NonBlank(RowsText(mergeBase)), history, old(files));
                && r.value.rejected == p.rejected && r.value.present == p.present
                && r.value.restored == (p.rejected == [])
                && (r.value.restored ==>
                      && r.value.converted == Ids(p.plan)
                      && Here() == Snapshot(mergeBase, WithPlan(p.plan, old(files)))
                      && trail == old(trail) + States(old(Here()), p.plan, mergeBase))
      ensures forall k :: |old(trail)| <= k < |trail| - 1 ==> SameMeaning(parse, synth, old(Here()), trail[k])
      ensures SamePlaces(parse, RowsText(old(baseline)), RowsText(mergeBase)) ==>
                SameMeaning(parse, synth, old(Here()), Here())
      ensures old(baseline) == mergeBase && r.Ok? ==> Here() == old(Here())
      ensures r.Ok? && r.value.restored &&
              Synthetic(parse, synth, RowsText(old(baseline)), RowsText(mergeBase), old(files)) ==>
                (SameMeaning(parse, synth, old(Here()), Here()) <==>
                   SamePlaces(parse, RowsText(old(baseline)), RowsText(mergeBase)))
    {
      appended := [];
      if baseline.None? { return Ok(Report([], [], [], false)), []; }
      var base, working := NonBlank(RowsText(mergeBase)), NonBlank(baseline.value);
      var accepted, rows := FindAppended(base, working);
      appended := rows;
      if !accepted { return Err("CON-LEDGER-010"), rows; }
      var parsed := ParseBase(parse, base);
      if parsed.Err? { return Err(parsed.error), rows; }
      var released := ReleasedEvents(history);
      if released.Err? { return Err(released.error), rows; }
      var p := ProveRows(parse, rows, parsed.value);
      r := Ok(if p.rejected == [] then Report(Ids(p.plan), [], p.present, true)
              else Report([], p.rejected, p.present, false));
      ReportsTrace(parse, rows, base, history, files, p, r.value);
      if p.rejected != [] { return r, rows; }
      ghost var start := Here();
      Apply(p.plan, mergeBase);
      if start.baseline == mergeBase {
        RerunAfterRestore(parse, rows, base, history, start.files);
      }
      ProofProvides(parse, start, base, rows, history);
      StatesKeepMeaning(parse, synth, start, mergeBase, rows, p.plan, old(trail));
      RestoredMeaning(parse, synth, start, mergeBase, rows, p.plan);
    }
  }

  /** The branch's rows hold the base's in order, the base's read as objects, and the history can be loaded. */
  ghost predicate Convertible(
    parse: string -> Json, start: Snapshot, mergeBase: Option<seq<string>>, history: seq<Event>)
  {
    var base := NonBlank(RowsText(mergeBase));
    && Subsequence(base, NonBlank(RowsText(start.baseline)))
    && (forall i :: 0 <= i < |base| ==> parse(base[i]).Object?)
    && HistoryConsistent(history)
  }

  /** The base rows read as objects, and with the appended ones they make up the branch's rows. */
  ghost predicate Accepts(
    parse: string -> Json, start: Snapshot, mergeBase: Option<seq<string>>, appended: seq<Numbered>)
  {
    && (forall i :: 0 <= i < |NonBlank(RowsText(mergeBase))| ==> parse(NonBlank(RowsText(mergeBase))[i]).Object?)
    && multiset(Lines(appended)) + multiset(NonBlank(RowsText(mergeBase))) ==
          multiset(NonBlank(RowsText(start.baseline)))
  }

  /** The disk after each event file of the plan. */
  ghost function PlanStates(baseline: Option<seq<string>>, plan: seq<Event>, files: map<string, Event>): seq<Snapshot> {
    seq(|plan|, k requires 0 <= k < |plan| => Snapshot(baseline, WithPlan(plan[..k + 1], files)))
  }

  lemma {:induction false} PlanStatesSnoc(
    baseline: Option<seq<string>>, plan: seq<Event>, i: nat, files: map<string, Event>)
    requires i < |plan|
    ensures PlanStates(baseline, plan[..i + 1], files) ==
            PlanStates(baseline, plan[..i], files) + [Snapshot(baseline, WithPlan(plan[..i + 1], files))]
    ensures WithPlan(plan[..i + 1], files) ==
            var before := WithPlan(plan[..i], files);
                if plan[i].id in before then before else before[plan[i].id := plan[i]]
  {
    assert plan[..i + 1][..i] == plan[..i];
    var longer, shorter := PlanStates(baseline, plan[..i + 1], files), PlanStates(baseline, plan[..i], files);
    forall k | 0 <= k < i ensures longer[k] == shorter[k] {
      assert plan[..i + 1][..k + 1] == plan[..i][..k + 1];
    }
    assert plan[..i + 1][..i + 1] == plan[..i + 1];
  }

  /** Every state of the disk from the first event file to the restored baseline. */
  ghost function States(start: Snapshot, plan: seq<Event>, mergeBase: Option<seq<string>>): seq<Snapshot> {
    PlanStates(start.baseline, plan, start.files) + [Snapshot(mergeBase, WithPlan(plan, start.files))]
  }

  function Ids(rows: seq<Event>): seq<string> {
    seq(|rows|, i requires 0 <= i < |rows| => rows[i].id)
  }

  lemma {:induction false} AppendedIsHeldBy(
    parse: string -> Json, base: seq<string>, rows: seq<Event>, appended: seq<Numbered>, history: seq<Event>,
    files: map<string, Event>, i: nat)
    requires |rows| == |base| && forall n :: 0 <= n < |base| ==> parse(base[n]) == Object(rows[n])
    requires Prove(parse, appended, rows, history, files).rejected == [] && i < |appended|
    ensures HasOwnId(parse, appended[i].line)
    ensures HeldBy(parse, parse(appended[i].line).event, base, Prove(parse, appended, rows, history, files).plan)
  {
    var plan := Prove(parse, appended, rows, history, files).plan;
    AcceptedRowsKept(parse, appended, rows, history, files, i);
    var k :| (k in rows || k in plan) && IdentityOf(k) == IdentityOf(parse(appended[i].line).event);
    if k in rows {
      var n :| 0 <= n < |rows| && rows[n] == k;
      assert base[n] in base && parse(base[n]) == Object(k);
    }
  }

  /** An accepted proof provides everything the meaning argument needs. */
  lemma {:induction false} ProofProvides(
    parse: string -> Json, start: Snapshot, base: seq<string>, appended: seq<Numbered>, history: seq<Event>)
    requires FilesOk(start.files)
    requires forall i :: 0 <= i < |base| ==> parse(base[i]).Object?
    requires multiset(Lines(appended)) + multiset(base) == multiset(NonBlank(RowsText(start.baseline)))
    requires ProofOf(parse, appended, base, history, start.files).rejected == []
    ensures Provable(parse, NonBlank(RowsText(start.baseline)), base, appended,
              ProofOf(parse, appended, base, history, start.files).plan, start.files)
  {
    var rows := RowsOf(parse, base);
    var plan := Prove(parse, appended, rows, history, start.files).plan;
    PlanIsOk(parse, appended, rows, history, start.files);
    forall e | e in plan ensures ReadFrom(parse, appended, e) {
      PlanComesFromRows(parse, appended, rows, history, start.files, e);
    }
    forall i | 0 <= i < |appended|
        ensures HasOwnId(parse, appended[i].line) && HeldBy(parse, parse(appended[i].line).event, base, plan) {
      AppendedIsHeldBy(parse, base, rows, appended, history, start.files, i);
    }
  }

  lemma {:induction false} PlanStateKeepsMeaning(
    parse: string -> Json, synth: (nat, string) -> string, start: Snapshot, base: seq<string>,
    appended: seq<Numbered>, plan: seq<Event>, k: nat)
    requires k <= |plan| && Provable(parse, NonBlank(RowsText(start.baseline)), base, appended, plan, start.files)
    ensures SameMeaning(parse, synth, start, Snapshot(start.baseline, WithPlan(plan[..k], start.files)))
  {
    forall i: Identity | i.id != ""
      ensures Loads(parse, synth, RowsText(start.baseline), start.files, i) <==>
              Loads(parse, synth, RowsText(start.baseline), WithPlan(plan[..k], start.files), i) {
      WritesKeepMeaning(parse, synth, RowsText(start.baseline), base, appended, plan, start.files, k, i);
    }
  }

  lemma {:induction false} MeaningVia(
    parse: string -> Json, synth: (nat, string) -> string, start: Snapshot, a: Option<seq<string>>,
    b: Option<seq<string>>, files: map<string, Event>)
    requires SameMeaning(parse, synth, start, Snapshot(a, files))
    ensures SameMeaning(parse, synth, start, Snapshot(b, files)) <==>
            LoadAlike(parse, synth, RowsText(a), RowsText(b), files)
  {
  }

  /** The restored branch loads what it loaded before exactly when its rows without event-ids keep their lines. */
  lemma {:induction false} RestoredMeaning(
    parse: string -> Json, synth: (nat, string) -> string, start: Snapshot, mergeBase: Option<seq<string>>,
    appended: seq<Numbered>, plan: seq<Event>)
    requires Provable(
               parse, NonBlank(RowsText(start.baseline)), NonBlank(RowsText(mergeBase)), appended, plan, start.files)
    ensures var places := SamePlaces(parse, RowsText(start.baseline), RowsText(mergeBase));
            var restored := Snapshot(mergeBase, WithPlan(plan, start.files));
            && (places ==> SameMeaning(parse, synth, start, restored))
            && (Synthetic(parse, synth, RowsText(start.baseline), RowsText(mergeBase), start.files) ==>
                  (SameMeaning(parse, synth, start, restored) ==> places))
  {
    var text, baseText, after := RowsText(start.baseline), RowsText(mergeBase), WithPlan(plan, start.files);
    assert plan[..|plan|] == plan;
    PlanStateKeepsMeaning(parse, synth, start, NonBlank(baseText), appended, plan, |plan|);
    RestoreKeepsMeaning(parse, synth, text, baseText, appended, plan, start.files);
    MeaningVia(parse, synth, start, start.baseline, mergeBase, after);
  }

  lemma {:induction false} StateAt(
    start: Snapshot, plan: seq<Event>, mergeBase: Option<seq<string>>, earlier: seq<Snapshot>, k: nat)
    requires |earlier| <= k < |earlier| + |plan|
    ensures var all := earlier + States(start, plan, mergeBase);
            && |all| == |earlier| + |plan| + 1
            && all[k] == Snapshot(start.baseline, WithPlan(plan[..k - |earlier| + 1], start.files))
  {
  }

  lemma {:induction false} StateKeepsMeaning(
    parse: string -> Json, synth: (nat, string) -> string, start: Snapshot, mergeBase: Option<seq<string>>,
    appended: seq<Numbered>, plan: seq<Event>, earlier: seq<Snapshot>, k: nat)
    requires Provable(
               parse, NonBlank(RowsText(start.baseline)), NonBlank(RowsText(mergeBase)), appended, plan, start.files)
    requires |earlier| <= k < |earlier| + |plan|
    ensures |earlier + States(start, plan, mergeBase)| == |earlier| + |plan| + 1
    ensures SameMeaning(parse, synth, start, (earlier + States(start, plan, mergeBase))[k])
  {
    StateAt(start, plan, mergeBase, earlier, k);
    PlanStateKeepsMeaning(parse, synth, start, NonBlank(RowsText(mergeBase)), appended, plan, k - |earlier| + 1);
  }

  /** After every single event file the branch loads what it loaded before. */
  lemma {:induction false} StatesKeepMeaning(
    parse: string -> Json, synth: (nat, string) -> string, start: Snapshot, mergeBase: Option<seq<string>>,
    appended: seq<Numbered>, plan: seq<Event>, earlier: seq<Snapshot>)
    requires Provable(
               parse, NonBlank(RowsText(start.baseline)), NonBlank(RowsText(mergeBase)), appended, plan, start.files)
    ensures var all := earlier + States(start, plan, mergeBase);
            forall k :: |earlier| <= k < |all| - 1 ==> SameMeaning(parse, synth, start, all[k])
  {
    var all := earlier + States(start, plan, mergeBase);
    forall k | |earlier| <= k < |all| - 1 ensures SameMeaning(parse, synth, start, all[k]) {
      StateKeepsMeaning(parse, synth, start, mergeBase, appended, plan, earlier, k);
    }
  }

  /** A rerun after a crash anywhere among the writes proves the same plan and ends with the same files. */
  lemma {:induction false} RerunConverges(
    parse: string -> Json, appended: seq<Numbered>, base: seq<string>, history: seq<Event>, files: map<string, Event>,
    k: nat)
    requires FilesOk(files) && forall i :: 0 <= i < |base| ==> parse(base[i]).Object?
    requires ProofOf(parse, appended, base, history, files).rejected == []
    requires k <= |ProofOf(parse, appended, base, history, files).plan|
    ensures var first := ProofOf(parse, appended, base, history, files);
            var crashed := WithPlan(first.plan[..k], files);
            && ProofOf(parse, appended, base, history, crashed) == first
            && WithPlan(first.plan, crashed) == WithPlan(first.plan, files)
  {
    var rows := RowsOf(parse, base);
    var plan := Prove(parse, appended, rows, history, files).plan;
    PlanIsOk(parse, appended, rows, history, files);
    RerunProves(parse, appended, rows, history, files, plan, k);
    RerunWrites(plan, files, k);
  }

  /** A rerun after the restore finds nothing appended, plans nothing and changes nothing. */
  lemma {:induction false} RerunAfterRestore(
    parse: string -> Json, appended: seq<Numbered>, base: seq<string>, history: seq<Event>, files: map<string, Event>)
    requires forall i :: 0 <= i < |base| ==> parse(base[i]).Object?
    requires multiset(Lines(appended)) + multiset(base) == multiset(base)
    ensures Subsequence(base, base) && appended == []
    ensures ProofOf(parse, appended, base, history, files) == Proof([], [], []) && WithPlan([], files) == files
  {
    assert EmbedsAt(base, base, seq(|base|, i requires 0 <= i < |base| => i));
    assert |multiset(Lines(appended)) + multiset(base)| == |Lines(appended)| + |base|;
  }

  /** A conversion that goes through and still changes what is loaded: an appended row in front of one without an id. */
  lemma {:induction false} RowMovesUp(start: Snapshot, restored: Snapshot)
    requires start == Snapshot(Some([WITH_ID, NO_ID]), map[])
    requires restored == Snapshot(Some([NO_ID]), WithPlan([SAMPLE], map[]))
    ensures Provable(
              SampleParse, NonBlank(RowsText(start.baseline)), NonBlank(RowsText(restored.baseline)),
              [Numbered(1, WITH_ID)], [SAMPLE], start.files)
    ensures Synthetic(SampleParse, SampleSynth, RowsText(start.baseline), RowsText(restored.baseline), start.files)
    ensures !SameMeaning(SampleParse, SampleSynth, start, restored)
  {
    AppendedInFront();
    RestoredMeaning(SampleParse, SampleSynth, start, restored.baseline, [Numbered(1, WITH_ID)], [SAMPLE]);
    SampleRows();
    assert [WITH_ID, NO_ID][1] == NO_ID;
  }
}
