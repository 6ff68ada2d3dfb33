/** What every run of recordings, legacy migrations and releases keeps. */
module LedgerRuns {
  import opened Wrappers
  import opened LedgerEvents
  import opened Ledger

  /** A file the layout before per-event files left behind: unreadable, or holding one event. */
  datatype Retained = Unreadable | Holding(event: Event)

  /** The tracked and runtime files of the ledger; `baseline` is the parsed frozen baseline. */
  datatype State = State(
    baseline: seq<Event>, files: map<string, Event>, history: seq<Event>, legacy: map<string, Retained>,
    summary: string)

  const EMPTY_SUMMARY := "# Current Release\n\n## Changes\n\n"

  // ---------------------------------------------------------------- recorded, released, pending

  lemma {:induction false} ListingExists(files: map<string, Event>)
    requires FilesOk(files)
    ensures exists l :: Listing(l, files)
    decreases |files|
  {
    if files == map[] {
      assert Listing([], files);
    } else {
      var id :| id in files;
      ListingExists(files - {id});
      var l :| Listing(l, files - {id});
      ListingCons(files[id], l, files);
    }
  }

  ghost function AnyListing(files: map<string, Event>): (l: seq<Event>)
    requires FilesOk(files)
    ensures Listing(l, files)
  {
    ListingExists(files);
    var l :| Listing(l, files);
    l
  }

  /** Baseline rows first, then event files in (timestamp, id) order: what the loader merges. */
  ghost function Sources(baseline: seq<Event>, files: map<string, Event>): seq<Event>
    requires FilesOk(files)
  {
    baseline + SortEvents(AnyListing(files))
  }

  ghost predicate InSources(s: State, e: Event) {
    e in s.baseline || (e.id in s.files && s.files[e.id] == e)
  }

  lemma {:induction false} SourcesHold(s: State, e: Event)
    requires FilesOk(s.files)
    ensures InSources(s, e) <==> e in Sources(s.baseline, s.files)
  {
    var sorted := SortEvents(AnyListing(s.files));
    SortListing(AnyListing(s.files), s.files);
    if e.id in s.files && s.files[e.id] == e {
      var i :| 0 <= i < |sorted| && sorted[i].id == e.id;
      assert sorted[i] == e;
    }
  }

  function NotReleased(rows: seq<Event>, history: seq<Event>): seq<Event> {
    if rows == [] then [] else (if HasId(history, rows[0].id) then [] else [rows[0]]) + NotReleased(rows[1..], history)
  }

  /** Recorded minus released, in load order. */
  ghost function Pending(s: State): seq<Event>
    requires FilesOk(s.files)
  {
    NotReleased(FirstOfEach(Sources(s.baseline, s.files)), s.history)
  }

  lemma {:induction false} UnreleasedRows(rows: seq<Event>, history: seq<Event>)
    requires DistinctIds(rows)
    ensures DistinctIds(NotReleased(rows, history))
    ensures forall e :: e in NotReleased(rows, history) <==> e in rows && !HasId(history, e.id)
  {
    if rows != [] {
      var rest, tail, all := rows[1..], NotReleased(rows[1..], history), NotReleased(rows, history);
      UnreleasedRows(rest, history);
      assert rows == [rows[0]] + rest;
      if !HasId(history, rows[0].id) {
        assert all == [rows[0]] + tail;
        forall j | 0 <= j < |tail| ensures tail[j].id != rows[0].id {
          assert tail[j] in rest;
          var k :| 0 <= k < |rest| && rest[k] == tail[j];
          assert rows[k + 1] == tail[j];
        }
      } else {
        assert all == tail;
      }
    }
  }

  // ---------------------------------------------------------------- the invariant

  ghost predicate Agree(a: Event, b: Event) {
    a.id == b.id ==> IdentityOf(a) == IdentityOf(b)
  }

  /** Recorded or released under some id. */
  ghost predicate Known(s: State, e: Event) {
    InSources(s, e) || e in s.history
  }

  ghost predicate LedgerInv(s: State) {
    && (forall id :: id in s.files ==> s.files[id].id == id && CurrentOk(s.files[id]))
    && (forall b :: b in s.baseline ==> b.id != "")
    && AllHistorical(s.history) && HistoryConsistent(s.history)
    && (forall a, b :: Known(s, a) && Known(s, b) ==> Agree(a, b))
  }

  lemma {:induction false} SourcesConsistent(s: State)
    requires LedgerInv(s)
    ensures Consistent(Sources(s.baseline, s.files))
  {
    var all := Sources(s.baseline, s.files);
    forall i, j | 0 <= i < j < |all| && all[i].id == all[j].id ensures IdentityOf(all[i]) == IdentityOf(all[j]) {
      SourcesHold(s, all[i]);
      SourcesHold(s, all[j]);
      assert Known(s, all[i]) && Known(s, all[j]);
    }
  }

  ghost predicate PendingOnce(s: State, e: Event)
    requires FilesOk(s.files)
  {
    exists p :: p in Pending(s) && IdentityOf(p) == IdentityOf(e)
  }

  ghost predicate IsReleased(s: State, e: Event) {
    exists h :: h in s.history && IdentityOf(h) == IdentityOf(e)
  }

  /** What is pending: only recorded events, none of them released, no id twice. */
  lemma {:induction false} PendingIsRecorded(s: State)
    requires LedgerInv(s)
    ensures DistinctIds(Pending(s))
    ensures forall p :: p in Pending(s) ==> InSources(s, p) && !HasId(s.history, p.id)
  {
    var all := Sources(s.baseline, s.files);
    FirstOfEachIds(all);
    UnreleasedRows(FirstOfEach(all), s.history);
    forall p | p in Pending(s) ensures InSources(s, p) {
      var i :| 0 <= i < |FirstOfEach(all)| && FirstOfEach(all)[i] == p;
      var n :| 0 <= n < |all| && all[n] == FirstOfEach(all)[i];
      SourcesHold(s, p);
    }
  }

  /** A recorded id that is not released is pending. */
  lemma {:induction false} UnreleasedIsPending(s: State, e: Event)
    requires LedgerInv(s) && InSources(s, e) && !HasId(s.history, e.id)
    ensures exists p :: p in Pending(s) && p.id == e.id
  {
    var all := Sources(s.baseline, s.files);
    FirstOfEachIds(all);
    UnreleasedRows(FirstOfEach(all), s.history);
    SourcesHold(s, e);
    var n :| 0 <= n < |all| && all[n] == e;
    assert HasId(all, e.id);
    var k :| 0 <= k < |FirstOfEach(all)| && FirstOfEach(all)[k].id == e.id;
    assert FirstOfEach(all)[k] in Pending(s);
  }

  lemma {:induction false} ReleasedById(s: State, e: Event)
    requires LedgerInv(s) && InSources(s, e)
    ensures IsReleased(s, e) <==> HasId(s.history, e.id)
  {
    assert Known(s, e);
    if HasId(s.history, e.id) {
      var j :| 0 <= j < |s.history| && s.history[j].id == e.id;
      assert Known(s, s.history[j]) && s.history[j] in s.history;
    }
  }

  lemma {:induction false} PendingById(s: State, e: Event)
    requires LedgerInv(s) && InSources(s, e)
    ensures PendingOnce(s, e) <==> !HasId(s.history, e.id)
  {
    PendingIsRecorded(s);
    if !HasId(s.history, e.id) {
      UnreleasedIsPending(s, e);
      var p :| p in Pending(s) && p.id == e.id;
      assert Known(s, p) && Known(s, e);
    }
  }

  /** Every recorded event is pending or released, never both, with its recorded content. */
  lemma {:induction false} RecordedIsPendingOrReleased(s: State, e: Event)
    requires LedgerInv(s) && InSources(s, e)
    ensures PendingOnce(s, e) <==> !IsReleased(s, e)
    ensures IsReleased(s, e) <==> HasId(s.history, e.id)
  {
    ReleasedById(s, e);
    PendingById(s, e);
  }

  // ---------------------------------------------------------------- actions

  datatype Action =
    | CreateFile(event: Event)
    | RemoveRetained(name: string)
    | ResetSummary
    | WriteHistory(release: string)

  ghost predicate HeldElsewhere(s: State, e: Event) {
    (e.id in s.files && IdentityOf(s.files[e.id]) == IdentityOf(e)) || IsReleased(s, e)
  }

  ghost predicate AgreesWithBaseline(s: State, e: Event) {
    forall b :: b in s.baseline ==> Agree(b, e)
  }

  ghost predicate AgreesWithHistory(s: State, e: Event) {
    forall h :: h in s.history ==> Agree(h, e)
  }

  function MarkReleased(rows: seq<Event>, release: string): seq<Event> {
    seq(|rows|, i requires 0 <= i < |rows| => rows[i].(status := Released, release := Some(release)))
  }

  ghost predicate Archivable(s: State, release: string)
    requires FilesOk(s.files)
  {
    && release != "" && Pending(s) != []
    && (forall h :: h in s.history ==> h.release != Some(release))
    && (forall p :: p in Pending(s) ==> p.content.strict && p.id != "")
  }

  ghost predicate Enabled(s: State, a: Action) {
    match a
    case CreateFile(e) => CurrentOk(e) && e.id !in s.files && AgreesWithHistory(s, e) && AgreesWithBaseline(s, e)
    case RemoveRetained(name) => name in s.legacy && s.legacy[name].Holding? && HeldElsewhere(s, s.legacy[name].event)
    case ResetSummary => true
    case WriteHistory(release) => FilesOk(s.files) && AbsorbRows([], s.history).Ok? && Archivable(s, release)
  }

  ghost function Do(s: State, a: Action): State
    requires Enabled(s, a)
  {
    match a
    case CreateFile(e) => s.(files := s.files[e.id := e])
    case RemoveRetained(name) => s.(legacy := s.legacy - {name})
    case ResetSummary => s.(summary := EMPTY_SUMMARY)
    case WriteHistory(release) => s.(history := AbsorbRows([], s.history).value + MarkReleased(Pending(s), release))
  }

  // ---------------------------------------------------------------- what never changes

  /**
    The later state keeps everything the earlier one recorded: event files are write-once, a released
    event keeps its content and its release, and a retained file is gone only if its event is held.
   */
  ghost predicate Evolves(s: State, t: State) {
    && t.baseline == s.baseline
    && (forall id :: id in s.files ==> id in t.files && t.files[id] == s.files[id])
    && (forall h :: h in s.history ==> Includes(t.history, h))
    && (forall h :: h in t.history ==> Includes(s.history, h) || RecordedAs(t, h))
    && (forall name :: name in s.legacy && s.legacy[name].Holding? ==>
          (name in t.legacy && t.legacy[name] == s.legacy[name]) || HeldElsewhere(t, s.legacy[name].event))
  }

  /** History invents nothing: the event was recorded in the baseline or in a file. */
  ghost predicate RecordedAs(s: State, e: Event) {
    exists r :: InSources(s, r) && IdentityOf(r) == IdentityOf(e)
  }

  lemma {:induction false} IncludesMember(rows: seq<Event>, e: Event)
    ensures e in rows ==> Includes(rows, e)
    ensures Includes(rows, e) ==> exists h :: h in rows && SameRelease(h, e)
  {
    if e in rows {
      var i :| 0 <= i < |rows| && rows[i] == e;
      assert SameRelease(rows[i], e);
    }
    if Includes(rows, e) {
      var i :| 0 <= i < |rows| && SameRelease(rows[i], e);
      assert rows[i] in rows;
    }
  }

  lemma {:induction false} EvolvesIfHistoryStays(s: State, t: State)
    requires t.baseline == s.baseline && t.history == s.history
    requires forall id :: id in s.files ==> id in t.files && t.files[id] == s.files[id]
    requires forall name :: name in s.legacy && s.legacy[name].Holding? ==>
               (name in t.legacy && t.legacy[name] == s.legacy[name]) || HeldElsewhere(t, s.legacy[name].event)
    ensures Evolves(s, t)
  {
    forall h | h in s.history ensures Includes(t.history, h) {
      IncludesMember(s.history, h);
    }
  }

  lemma {:induction false} IncludesStays(s: State, t: State, e: Event)
    requires Evolves(s, t) && Includes(s.history, e)
    ensures Includes(t.history, e)
  {
    IncludesMember(s.history, e);
    var h :| h in s.history && SameRelease(h, e);
    IncludesMember(t.history, h);
    var k :| k in t.history && SameRelease(k, h);
    var j :| 0 <= j < |t.history| && t.history[j] == k;
    assert SameRelease(t.history[j], e);
  }

  lemma {:induction false} HeldStays(s: State, t: State, e: Event)
    requires Evolves(s, t) && HeldElsewhere(s, e)
    ensures HeldElsewhere(t, e)
  {
    if IsReleased(s, e) {
      var h :| h in s.history && IdentityOf(h) == IdentityOf(e);
      IncludesMember(t.history, h);
    }
  }

  lemma {:induction false} RecordedStays(s: State, t: State, e: Event)
    requires Evolves(s, t) && RecordedAs(s, e)
    ensures RecordedAs(t, e)
  {
    var r :| InSources(s, r) && IdentityOf(r) == IdentityOf(e);
    assert InSources(t, r);
  }

  lemma {:induction false} HistoryOrigin(s: State, t: State, u: State, h: Event)
    requires Evolves(s, t) && Evolves(t, u) && h in u.history
    ensures Includes(s.history, h) || RecordedAs(u, h)
  {
    if !RecordedAs(u, h) {
      IncludesMember(t.history, h);
      var k :| k in t.history && SameRelease(k, h);
      if RecordedAs(t, k) {
        RecordedStays(t, u, k);
      } else {
        var i :| 0 <= i < |s.history| && SameRelease(s.history[i], k);
        assert SameRelease(s.history[i], h);
      }
    }
  }

  lemma {:induction false} EvolvesTransitive(s: State, t: State, u: State)
    requires Evolves(s, t) && Evolves(t, u)
    ensures Evolves(s, u)
  {
    forall h | h in s.history ensures Includes(u.history, h) {
      IncludesStays(t, u, h);
    }
    forall h | h in u.history ensures Includes(s.history, h) || RecordedAs(u, h) {
      HistoryOrigin(s, t, u, h);
    }
    forall name | name in s.legacy && s.legacy[name].Holding?
      ensures (name in u.legacy && u.legacy[name] == s.legacy[name]) || HeldElsewhere(u, s.legacy[name].event) {
      if HeldElsewhere(t, s.legacy[name].event) {
        HeldStays(t, u, s.legacy[name].event);
      }
    }
  }

  /** What `MarkReleased` makes of the pending events. */
  lemma {:induction false} ReleasedRows(rows: seq<Event>, release: string)
    requires release != "" && forall p :: p in rows ==> p.content.strict && p.id != ""
    ensures AllHistorical(MarkReleased(rows, release))
    ensures DistinctIds(rows) ==> DistinctIds(MarkReleased(rows, release))
    ensures forall h :: h in MarkReleased(rows, release) ==> exists p :: p in rows && IdentityOf(p) == IdentityOf(h)
  {
    forall h | h in MarkReleased(rows, release) ensures exists p :: p in rows && IdentityOf(p) == IdentityOf(h) {
      var i :| 0 <= i < |rows| && MarkReleased(rows, release)[i] == h;
      assert IdentityOf(rows[i]) == IdentityOf(h);
    }
  }

  /** Deduplicating the history keeps every event under its release and invents none. */
  lemma {:induction false} KeptHistory(s: State)
    requires LedgerInv(s)
    ensures AbsorbRows([], s.history).Ok?
    ensures var kept := AbsorbRows([], s.history).value;
            && AllHistorical(kept) && DistinctIds(kept)
            && (forall h :: h in s.history ==> Includes(kept, h))
            && (forall h :: h in kept ==> Includes(s.history, h))
  {
    assert [] + s.history == s.history;
    AbsorbHistory([], s.history);
  }

  lemma {:induction false} AddedHistory(s: State, release: string)
    requires LedgerInv(s) && Archivable(s, release)
    ensures var added := MarkReleased(Pending(s), release);
            && AllHistorical(added) && DistinctIds(added)
            && (forall h :: h in added ==> RecordedAs(s, h) && !HasId(s.history, h.id))
  {
    PendingIsRecorded(s);
    ReleasedRows(Pending(s), release);
    forall h | h in MarkReleased(Pending(s), release) ensures RecordedAs(s, h) && !HasId(s.history, h.id) {
      var p :| p in Pending(s) && IdentityOf(p) == IdentityOf(h);
      assert InSources(s, p);
    }
  }

  lemma {:induction false} DistinctConcat(a: seq<Event>, b: seq<Event>)
    requires DistinctIds(a) && DistinctIds(b)
    requires forall i, j :: 0 <= i < |a| && 0 <= j < |b| ==> a[i].id != b[j].id
    ensures DistinctIds(a + b)
  {
  }

  /** The history after an archive: the old one deduplicated, then the pending events, each id once. */
  lemma {:induction false} ArchivedHistory(s: State, release: string)
    requires LedgerInv(s) && Archivable(s, release)
    ensures AbsorbRows([], s.history).Ok?
    ensures var kept, added := AbsorbRows([], s.history).value, MarkReleased(Pending(s), release);
            && AllHistorical(kept + added) && DistinctIds(kept + added)
            && (forall h :: h in s.history ==> Includes(kept, h))
            && (forall h :: h in kept ==> Includes(s.history, h))
            && (forall h :: h in added ==> RecordedAs(s, h) && !HasId(s.history, h.id))
  {
    KeptHistory(s);
    AddedHistory(s, release);
    var kept, added := AbsorbRows([], s.history).value, MarkReleased(Pending(s), release);
    forall i, j | 0 <= i < |kept| && 0 <= j < |added| ensures kept[i].id != added[j].id {
      assert added[j] in added && kept[i] in kept;
      var k :| 0 <= k < |s.history| && SameRelease(s.history[k], kept[i]);
      assert s.history[k].id == kept[i].id;
    }
    DistinctConcat(kept, added);
  }

  /** `h` is the event `p` as released: its own fields and commits, filed under the release. */
  ghost predicate FiledUnder(h: Event, p: Event, release: string) {
    && h.id == p.id && h.timestamp == p.timestamp && h.content == p.content && h.commits == p.commits
    && h.status.Released? && h.release == Some(release)
  }

  /** A release leaves the earlier rows, each id once, and behind them the pending events filed under it. */
  ghost predicate Filed(history: seq<Event>, pending: seq<Event>, release: string, now: seq<Event>) {
    |pending| <= |now| &&
      var n := |now| - |pending|;
      && KeepsLast(history, now[..n])
      && forall i :: 0 <= i < |pending| ==> FiledUnder(now[n + i], pending[i], release)
  }

  /** What the history is after an archive, row by row. */
  lemma {:induction false} ArchiveFiles(s: State, release: string)
    requires LedgerInv(s) && Archivable(s, release)
    ensures AbsorbRows([], s.history).Ok?
    ensures Filed(s.history, Pending(s), release,
                  AbsorbRows([], s.history).value + MarkReleased(Pending(s), release))
  {
    KeptHistory(s);
    AbsorbedRows(s.history);
    var kept, added := AbsorbRows([], s.history).value, MarkReleased(Pending(s), release);
    assert (kept + added)[..|kept|] == kept;
  }

  lemma {:induction false} IncludesMore(a: seq<Event>, b: seq<Event>, e: Event)
    requires Includes(a, e)
    ensures Includes(a + b, e)
  {
    var i :| 0 <= i < |a| && SameRelease(a[i], e);
    assert (a + b)[i] == a[i];
  }

  lemma {:induction false} WriteHistoryStep(s: State, release: string)
    requires LedgerInv(s) && Enabled(s, WriteHistory(release))
    ensures var t := Do(s, WriteHistory(release)); LedgerInv(t) && Evolves(s, t)
  {
    ArchivedHistory(s, release);
    var t := Do(s, WriteHistory(release));
    var kept, added := AbsorbRows([], s.history).value, MarkReleased(Pending(s), release);
    forall h | h in s.history ensures Includes(t.history, h) {
      IncludesMore(kept, added, h);
    }
    forall h | h in t.history ensures Includes(s.history, h) || RecordedAs(t, h) {
      if h in added {
        var r :| InSources(s, r) && IdentityOf(r) == IdentityOf(h);
        assert InSources(t, r);
      }
    }
    forall e | Known(t, e) ensures exists k :: Known(s, k) && IdentityOf(k) == IdentityOf(e) {
      Twin(s, t, e);
    }
    forall a, b | Known(t, a) && Known(t, b) ensures Agree(a, b) {
      var k :| Known(s, k) && IdentityOf(k) == IdentityOf(a);
      var l :| Known(s, l) && IdentityOf(l) == IdentityOf(b);
      assert Agree(k, l);
    }
  }

  lemma {:induction false} Twin(s: State, t: State, e: Event)
    requires t.baseline == s.baseline && t.files == s.files && Known(t, e)
    requires forall h :: h in t.history ==> Includes(s.history, h) || RecordedAs(t, h)
    ensures exists k :: Known(s, k) && IdentityOf(k) == IdentityOf(e)
  {
    if InSources(t, e) {
      assert Known(s, e);
    } else if Includes(s.history, e) {
      IncludesMember(s.history, e);
      var k :| k in s.history && SameRelease(k, e);
      assert Known(s, k);
    } else {
      var r :| InSources(t, r) && IdentityOf(r) == IdentityOf(e);
      assert Known(s, r);
    }
  }

  lemma {:induction false} CreateFileStep(s: State, e: Event)
    requires LedgerInv(s) && Enabled(s, CreateFile(e))
    ensures var t := Do(s, CreateFile(e)); LedgerInv(t) && Evolves(s, t)
  {
    var t := Do(s, CreateFile(e));
    EvolvesIfHistoryStays(s, t);
    forall a | Known(t, a) ensures a == e || (Known(s, a) && Agree(a, e)) {
    }
  }

  lemma {:induction false} StepKeeps(s: State, a: Action)
    requires LedgerInv(s) && Enabled(s, a)
    ensures LedgerInv(Do(s, a)) && Evolves(s, Do(s, a))
  {
    match a
    case WriteHistory(release) => WriteHistoryStep(s, release);
    case CreateFile(e) => CreateFileStep(s, e);
    case _ =>
      EvolvesIfHistoryStays(s, Do(s, a));
      assert forall e :: Known(Do(s, a), e) ==> Known(s, e);
  }

  ghost predicate Legal(s: State, acts: seq<Action>)
    decreases |acts|, 0
  {
    acts == [] || (Legal(s, acts[..|acts| - 1]) && Enabled(Run(s, acts[..|acts| - 1]), acts[|acts| - 1]))
  }

  ghost function Run(s: State, acts: seq<Action>): State
    requires Legal(s, acts)
    decreases |acts|, 1
  {
    if acts == [] then s else Do(Run(s, acts[..|acts| - 1]), acts[|acts| - 1])
  }

  /** Conservation over runs, stopped anywhere. */
  lemma {:induction false} RunKeeps(s: State, acts: seq<Action>)
    requires LedgerInv(s) && Legal(s, acts)
    ensures LedgerInv(Run(s, acts)) && Evolves(s, Run(s, acts))
    decreases |acts|
  {
    if acts == [] {
      EvolvesIfHistoryStays(s, s);
    } else {
      var most := acts[..|acts| - 1];
      RunKeeps(s, most);
      StepKeeps(Run(s, most), acts[|acts| - 1]);
      EvolvesTransitive(s, Run(s, most), Run(s, acts));
    }
  }

  /**
    An event recorded at any time is, at every later time, pending or released exactly once with its content
    unchanged.
   */
  lemma {:induction false} RecordedForever(s: State, acts: seq<Action>, e: Event)
    requires LedgerInv(s) && Legal(s, acts) && InSources(s, e)
    ensures var now := Run(s, acts);
            LedgerInv(now) && InSources(now, e) && (PendingOnce(now, e) <==> !IsReleased(now, e)) &&
                DistinctIds(Pending(now))
  {
    RunKeeps(s, acts);
    RecordedIsPendingOrReleased(Run(s, acts), e);
    PendingIsRecorded(Run(s, acts));
  }

  /** A released event stays released under the same release and never becomes pending again. */
  lemma {:induction false} ReleasedForever(s: State, acts: seq<Action>, i: nat)
    requires LedgerInv(s) && Legal(s, acts) && i < |s.history|
    ensures var now := Run(s, acts);
            && LedgerInv(now)
            && (forall j :: 0 <= j < |now.history| && now.history[j].id == s.history[i].id ==>
                  SameRelease(now.history[j], s.history[i]))
            && HasId(now.history, s.history[i].id) && !HasId(Pending(now), s.history[i].id)
  {
    RunKeeps(s, acts);
    var now := Run(s, acts);
    assert s.history[i] in s.history;
    IncludesMember(now.history, s.history[i]);
    var k :| 0 <= k < |now.history| && SameRelease(now.history[k], s.history[i]);
    assert now.history[k].id == s.history[i].id;
    PendingIsRecorded(now);
  }
}
