/**
  The ledger operations as they run on disk.  `acts` logs every atomic change; `Tracked` says the log is a
  legal run to the current files, so the theorems about runs cover every point of interruption.
 */
module LedgerStore {
  import opened Wrappers
  import opened LedgerEvents
  import opened Ledger
  import opened LedgerRuns

  predicate IsAlnum(c: char) {
    'A' <= c <= 'Z' || 'a' <= c <= 'z' || '0' <= c <= '9'
  }

  /** `validate_release_id`: a safe identifier of at most 128 characters. */
  predicate IsReleaseId(s: string) {
    0 < |s| <= 128 && IsAlnum(s[0]) && forall i :: 0 <= i < |s| ==> IsAlnum(s[i]) || s[i] in "._-"
  }

  datatype ArchiveResult = ArchiveResult(archived: nat, retry: bool, empty: bool)

  /** Already assigned to some event of the history. */
  predicate InRelease(history: seq<Event>, release: string) {
    exists h :: h in history && h.release == Some(release)
  }

  /** After an archive the history has every recorded id. */
  lemma {:induction false} ArchiveReleases(s: State, release: string, p: Event)
    requires LedgerInv(s) && Enabled(s, WriteHistory(release)) && InSources(s, p)
    ensures HasId(Do(s, WriteHistory(release)).history, p.id)
  {
    var t := Do(s, WriteHistory(release));
    ArchivedHistory(s, release);
    var kept := AbsorbRows([], s.history).value;
    if HasId(s.history, p.id) {
      var i :| 0 <= i < |s.history| && s.history[i].id == p.id;
      assert s.history[i] in s.history;
      var k :| 0 <= k < |kept| && SameRelease(kept[k], s.history[i]);
      assert t.history[k].id == p.id;
    } else {
      UnreleasedIsPending(s, p);
      var q :| q in Pending(s) && q.id == p.id;
      var i :| 0 <= i < |Pending(s)| && Pending(s)[i] == q;
      assert t.history[|kept| + i].id == p.id;
    }
  }

  lemma {:induction false} EmptyOrNot(s: seq<Event>)
    ensures s == [] || exists e :: e in s
  {
    if s != [] {
      assert s[0] in s;
    }
  }

  lemma {:induction false} ArchiveEmptiesPending(s: State, release: string)
    requires LedgerInv(s) && Enabled(s, WriteHistory(release))
    ensures LedgerInv(Do(s, WriteHistory(release))) && Pending(Do(s, WriteHistory(release))) == []
  {
    var t := Do(s, WriteHistory(release));
    StepKeeps(s, WriteHistory(release));
    PendingIsRecorded(t);
    forall p | InSources(s, p) ensures p !in Pending(t) {
      ArchiveReleases(s, release, p);
    }
    assert forall p :: InSources(t, p) ==> InSources(s, p);
    EmptyOrNot(Pending(t));
  }

  /** The merge of the deduplicated history with the released events is plain appending. */
  lemma {:induction false} ArchiveAppends(s: State, release: string)
    requires LedgerInv(s) && Archivable(s, release)
    ensures AbsorbRows([], s.history).Ok?
    ensures var kept, added := AbsorbRows([], s.history).value, MarkReleased(Pending(s), release);
            AbsorbRows([], kept + added) == Ok(kept + added)
  {
    ArchivedHistory(s, release);
    var kept, added := AbsorbRows([], s.history).value, MarkReleased(Pending(s), release);
    assert [] + (kept + added) == kept + added;
    AbsorbFresh([], kept + added);
  }

  /** With nothing pending the history stays; otherwise it gains the pending events, filed under the release. */
  ghost predicate ReleasedAs(history: seq<Event>, pending: seq<Event>, release: string, now: seq<Event>) {
    if pending == [] then now == history else Filed(history, pending, release, now) && InRelease(now, release)
  }

  lemma {:induction false} FiledInRelease(
    history: seq<Event>, pending: seq<Event>, release: string, now: seq<Event>)
    requires Filed(history, pending, release, now) && pending != []
    ensures InRelease(now, release)
  {
    var n := |now| - |pending|;
    assert FiledUnder(now[n + 0], pending[0], release);
  }

  /** What the one write of an archive does, and that nothing is pending afterwards. */
  lemma {:induction false} ArchiveCommits(
    s: State, release: string, kept: seq<Event>, pending: seq<Event>, added: seq<Event>)
    requires LedgerInv(s) && Archivable(s, release) && AbsorbRows([], s.history) == Ok(kept)
    requires pending == Pending(s) && added == MarkReleased(pending, release)
    ensures Enabled(s, WriteHistory(release)) && Do(s, WriteHistory(release)).history == kept + added
    ensures AbsorbRows([], kept + added) == Ok(kept + added)
    ensures ReleasedAs(s.history, pending, release, kept + added)
    ensures LedgerInv(Do(s, WriteHistory(release))) && Pending(Do(s, WriteHistory(release))) == []
  {
    ArchiveAppends(s, release);
    ArchiveEmptiesPending(s, release);
    ArchiveFiles(s, release);
    FiledInRelease(s.history, pending, release, kept + added);
  }

  lemma {:induction false} KeptReleases(s: State, release: string)
    requires LedgerInv(s)
    ensures AbsorbRows([], s.history).Ok?
    ensures InRelease(AbsorbRows([], s.history).value, release) <==> InRelease(s.history, release)
  {
    KeptHistory(s);
    var kept := AbsorbRows([], s.history).value;
    if h :| h in s.history && h.release == Some(release) {
      IncludesMember(kept, h);
    }
    if h :| h in kept && h.release == Some(release) {
      IncludesMember(s.history, h);
    }
  }

  class Store {
    var baseline: seq<Event>
    var files: map<string, Event>
    var history: seq<Event>
    var legacy: map<string, Retained>
    var summary: string
    ghost var origin: State
    ghost var acts: seq<Action>

    ghost function Now(): State
      reads this
    {
      State(baseline, files, history, legacy, summary)
    }

    ghost predicate Tracked()
      reads this
    {
      LedgerInv(origin) && Legal(origin, acts) && Run(origin, acts) == Now()
    }

    lemma {:induction false} TrackedInv()
      requires Tracked()
      ensures LedgerInv(Now()) && Evolves(origin, Now())
    {
      RunKeeps(origin, acts);
    }

    ghost method Log(before: State, a: Action)
      requires LedgerInv(origin) && Legal(origin, acts) && Run(origin, acts) == before
      requires Enabled(before, a) && Now() == Do(before, a)
      modifies `acts
      ensures Tracked() && acts == old(acts) + [a]
    {
      acts := acts + [a];
      assert acts[..|acts| - 1] == old(acts);
    }

    /** Write-once: the same id with other content is an error, never an overwrite. */
    method WriteEvent(e: Event) returns (r: Result<bool, string>)
      modifies `files
      ensures r.Ok? <==> (e.id in old(files) ==> IdentityOf(old(files)[e.id]) == IdentityOf(e))
      ensures files == if r == Ok(true) then old(files)[e.id := e] else old(files)
      ensures r.Ok? ==> e.id in files && IdentityOf(files[e.id]) == IdentityOf(e) && (r.value <==> e.id !in old(files))
    {
      if e.id in files {
        if IdentityOf(files[e.id]) != IdentityOf(e) { return Err("CON-FRAGMENT-001"); }
        return Ok(false);
      }
      files := files[e.id := e];
      return Ok(true);
    }

    /**
      Record one event.  A refusal writes nothing.  The recorder does not look at the baseline: the
      sources stay loadable iff no baseline row has the id with other content.
     */
    method Record(e: Event) returns (r: Result<bool, string>)
      requires Tracked()
      modifies `files, `acts
      ensures r.Ok? <==> CurrentOk(e) && AgreesWithHistory(old(Now()), e) &&
                         (e.id in old(files) ==> IdentityOf(old(files)[e.id]) == IdentityOf(e))
      ensures r.Err? ==> Now() == old(Now()) && Tracked()
      ensures r.Ok? ==>
                e.id in files && IdentityOf(files[e.id]) == IdentityOf(e) && files == old(files)[e.id := files[e.id]]
      ensures r.Ok? ==> FilesOk(files) && (Consistent(Sources(baseline, files)) <==> AgreesWithBaseline(old(Now()), e))
      ensures r.Ok? && AgreesWithBaseline(old(Now()), e) ==> Tracked() && old(acts) <= acts
    {
      TrackedInv();
      ghost var before := Now();
      if !CurrentOk(e) { return Err("VAL-FRAGMENT-001"); }
      var released := ReleasedEvents(history);
      assert released.Ok?;
      HistoryAgreement(before, released.value, e);
      if e.id in released.value && IdentityOf(released.value[e.id]) != IdentityOf(e) { return Err("CON-ARCHIVE-003"); }
      r := WriteEvent(e);
      if r.Ok? {
        assert files == before.files[e.id := files[e.id]];
        RecordedBesideBaseline(before, Now(), e);
        if r.value && AgreesWithBaseline(before, e) {
          Log(before, CreateFile(e));
        }
      }
    }

    /**
      Migrate the events an older layout retained.  A retained file is removed exactly when its event is an
      event file or released with the same content, or becomes one now; everything else is left in place and
      reported.  The baseline is not looked at.
     */
    method MigrateLegacy(names: seq<string>) returns (r: Result<seq<string>, string>)
      requires FilesOk(files) && Names(names) == legacy.Keys
      requires forall i, j :: 0 <= i < j < |names| ==> names[i] != names[j]
      modifies `files, `legacy, `acts
      ensures r.Ok? <==> HistoryConsistent(history)
      ensures r.Err? ==> Now() == old(Now()) && acts == old(acts)
      ensures r.Ok? ==> Names(r.value) == legacy.Keys && MigratedFrom(old(Now()), Now()) && NoneMigratable(Now())
      ensures FilesOk(files)
      ensures old(Tracked()) && RetainedAgree(old(Now())) ==> Tracked() && old(acts) <= acts
    {
      var released := ReleasedEvents(history);
      if released.Err? { return Err(released.error); }
      var left: seq<string> := [];
      assert names[0..] == names;
      ghost var tracked := Tracked() && RetainedAgree(Now());
      for i := 0 to |names|
        invariant FilesOk(files) && MigratedFrom(old(Now()), Now())
        invariant SplitNames(legacy.Keys, left, names[i..])
        invariant forall name :: name in Names(left) ==> name in legacy && LeftAlone(Now(), name)
        invariant tracked ==> Tracked() && old(acts) <= acts && RetainedAgree(Now())
      {
        NextName(legacy.Keys, left, names, i);
        ghost var before := Now();
        var moved := MigrateOne(names[i], released.value);
        MigratedNext(old(Now()), before, Now());
        StaysLeft(before, Now(), left);
        if !moved {
          left := left + [names[i]];
        }
      }
      return Ok(left);
    }

    /** Materialize one retained event, then unlink it; `false` leaves it in place. */
    method MigrateOne(name: string, released: map<string, Event>) returns (moved: bool)
      requires FilesOk(files) && name in legacy
      requires ReleasedIs(history, released)
      modifies `files, `legacy, `acts
      ensures legacy == if moved then old(legacy) - {name} else old(legacy)
      ensures FilesOk(files) && (!moved ==> files == old(files))
      ensures forall id :: id in old(files) ==> id in files && files[id] == old(files)[id]
      ensures moved ==> old(legacy)[name].Holding? && HeldElsewhere(Now(), old(legacy)[name].event)
      ensures moved <==> old(legacy)[name].Holding? && Migratable(old(Now()), old(legacy)[name].event)
      ensures old(Tracked()) &&
                (old(legacy)[name].Holding? ==> AgreesWithBaseline(old(Now()), old(legacy)[name].event)) ==>
                Tracked() && old(acts) <= acts
    {
      match legacy[name] {
        case Unreadable => return false;
        case Holding(e) =>
          if !CurrentOk(e) { return false; }
          ghost var before := Now();
          ghost var tracked := Tracked() && AgreesWithBaseline(before, e);
          HistoryAgreement(before, released, e);
          if e.id in released {
            if IdentityOf(released[e.id]) != IdentityOf(e) { return false; }
            assert IsReleased(Now(), e) by {
              var i :| 0 <= i < |history| && history[i].id == e.id;
              assert history[i] in history;
            }
          } else {
            var written := WriteEvent(e);
            if written.Err? { return false; }
            if written.value && tracked {
              Log(before, CreateFile(e));
            }
          }
          before := Now();
          legacy := legacy - {name};
          if tracked {
            Log(before, RemoveRetained(name));
          }
          return true;
      }
    }

    /** The event files in whatever order the directory yields them. */
    method ListEvents() returns (l: seq<Event>)
      requires FilesOk(files)
      ensures Listing(l, files)
    {
      l := [];
      var todo := files.Keys;
      while todo != {}
        invariant todo <= files.Keys
        invariant Listing(l, files - todo)
        decreases todo
      {
        var id :| id in todo;
        ghost var rest := todo - {id};
        assert (files - rest) - {id} == files - todo;
        ListingCons(files[id], l, files - rest);
        l, todo := [files[id]] + l, todo - {id};
      }
      assert files - todo == files;
    }

    /**
      Load every source, check it against the history, and return what is not released.  It fails exactly
      when two sources, two rows of the history, or a source and the history contradict each other.
     */
    method PendingEvents() returns (r: Result<seq<Event>, string>)
      requires FilesOk(files)
      ensures r.Ok? <==> Loadable(Now())
      ensures r.Ok? ==> r.value == Pending(Now())
      ensures LedgerInv(Now()) ==> r.Ok?
    {
      if LedgerInv(Now()) {
        InvIsLoadable(Now());
      }
      var released := ReleasedEvents(history);
      if released.Err? { return Err(released.error); }
      var listing := ListEvents();
      SortOfListings(listing, AnyListing(files), files);
      var events := Merge(baseline + SortEvents(listing));
      if events.Err? { return Err(events.error); }
      AgreeById(Now(), events.value, released.value);
      r := KeepUnreleased(events.value, released.value, history);
    }

    /**
      Release everything pending.  The history write is the one commit point; a release id that the
      history already holds, or nothing pending, changes nothing, and so does a refusal.
     */
    method ArchiveLocked(release: string) returns (r: Result<ArchiveResult, string>)
      requires FilesOk(files) && release != ""
      modifies `history, `summary, `acts
      ensures r.Err? ==> Now() == old(Now())
      ensures !Loadable(old(Now())) ==> r.Err?
      ensures old(Tracked()) ==> Tracked() && old(acts) <= acts && LedgerInv(Now())
      ensures old(Tracked()) ==> (r.Ok? <==> InRelease(old(history), release) || AllStrict(Pending(old(Now()))))
      ensures old(Tracked()) && (InRelease(old(history), release) || Pending(old(Now())) == []) ==>
                Now() == old(Now()) && r.Ok? && (r.value.retry <==> InRelease(old(history), release))
      ensures old(Tracked()) && r.Ok? && !InRelease(old(history), release) && Pending(old(Now())) != [] ==>
                && AbsorbRows([], old(history)).Ok?
                && history == AbsorbRows([], old(history)).value + MarkReleased(Pending(old(Now())), release)
                && ReleasedAs(old(history), Pending(old(Now())), release, history)
                && Pending(Now()) == [] && r.value == ArchiveResult(|Pending(old(Now()))|, false, false)
    {
      ghost var before := Now();
      ghost var tracked := Tracked();
      if tracked {
        TrackedInv();
        KeptReleases(before, release);
      }
      var historical := MergeHistorical(history, []);
      assert history + [] == history;
      if historical.Err? { return Err(historical.error); }
      var loaded := PendingEvents();
      if loaded.Err? { return Err(loaded.error); }
      var pending := loaded.value;
      var prior := set h | h in historical.value && h.release == Some(release) :: h.id;
      PriorIds(historical.value, release, prior);
      if prior != {} || pending == [] {
        return Ok(ArchiveResult(|prior|, prior != {}, prior == {}));
      }
      var added := MarkReleased(pending, release);
      var valid := AllValid(added);
      ValidIsStrict(pending, release);
      if tracked {
        PendingHaveIds(before);
      }
      if !valid { return Err("CON-LEDGER-003"); }
      if tracked {
        ArchiveCommits(before, release, historical.value, pending, added);
      }
      var merged := MergeHistorical(historical.value, added);
      if merged.Err? { return Err(merged.error); }
      CommitArchive(release, merged.value, tracked);
      return Ok(ArchiveResult(|added|, false, false));
    }

    /**
      Migrate what an older layout retained, refuse if any of it is left, then archive.  When the retained
      events agree with the baseline it succeeds exactly for a safe release id with nothing left in place
      and, unless the release was made before, only strict events pending.
     */
    method Archive(release: string, names: seq<string>) returns (r: Result<ArchiveResult, string>)
      requires FilesOk(files) && Names(names) == legacy.Keys
      requires forall i, j :: 0 <= i < j < |names| ==> names[i] != names[j]
      modifies this
      ensures FilesOk(files) && origin == old(origin)
      ensures !IsReleaseId(release) ==> r.Err? && Now() == old(Now())
      ensures IsReleaseId(release) && HistoryConsistent(old(history)) ==>
                NoneMigratable(Now().(history := old(history)))
      ensures r.Err? ==> history == old(history)
      ensures !Loadable(Now().(history := old(history))) ==> r.Err?
      ensures r.Ok? ==> legacy == map[] && MigratedFrom(old(Now()), Now().(history := old(history)))
      ensures old(Tracked()) && RetainedAgree(old(Now())) ==>
                && Tracked() && LedgerInv(Now()) && old(acts) <= acts
                && (r.Ok? <==>
                      && IsReleaseId(release) && legacy == map[]
                      && (InRelease(old(history), release) || AllStrict(Pending(Now().(history := old(history))))))
                && (r.Ok? && InRelease(old(history), release) ==> history == old(history) && r.value.retry)
                && (r.Ok? && !InRelease(old(history), release) ==> Pending(Now()) == [])
                && (r.Ok? && !InRelease(old(history), release) ==>
                      ReleasedAs(old(history), Pending(Now().(history := old(history))), release, history))
    {
      ghost var tracked := Tracked() && RetainedAgree(Now());
      if tracked {
        TrackedInv();
      }
      if !IsReleaseId(release) { return Err("CON-ARCHIVE-005"); }
      var left := MigrateLegacy(names);
      if left.Err? { return Err(left.error); }
      ghost var migrated := Now();
      if tracked {
        TrackedInv();
      }
      if left.value != [] {
        NamesLeft(left.value);
        return Err("CON-LEDGER-011");
      }
      assert legacy.Keys == {};
      r := ArchiveLocked(release);
      SameMigration(old(Now()), migrated, Now().(history := old(history)));
    }

    /** Reset the summary, then commit the release with one write. */
    method CommitArchive(release: string, merged: seq<Event>, ghost tracked: bool)
      requires tracked ==>
                 Tracked() && Enabled(Now(), WriteHistory(release)) &&
                     merged == Do(Now(), WriteHistory(release)).history
      modifies `history, `summary, `acts
      ensures Now() == old(Now()).(summary := EMPTY_SUMMARY, history := merged)
      ensures tracked ==>
                && Tracked() && old(acts) <= acts && LedgerInv(Now())
                && Now() == Do(old(Now()), WriteHistory(release)).(summary := EMPTY_SUMMARY)
    {
      ghost var before := Now();
      summary := EMPTY_SUMMARY;
      if tracked {
        Log(before, ResetSummary);
      }
      before := Now();
      history := merged;
      if tracked {
        Log(before, WriteHistory(release));
        TrackedInv();
      }
    }
  }

  predicate AllStrict(rows: seq<Event>) {
    forall p :: p in rows ==> p.content.strict
  }

  /** The rows the history may hold. */
  method AllValid(rows: seq<Event>) returns (valid: bool)
    ensures valid <==> forall i :: 0 <= i < |rows| ==> HistoricalOk(rows[i])
  {
    for i := 0 to |rows|
      invariant forall k :: 0 <= k < i ==> HistoricalOk(rows[k])
    {
      if !HistoricalOk(rows[i]) { return false; }
    }
    return true;
  }

  lemma {:induction false} ValidIsStrict(pending: seq<Event>, release: string)
    requires release != ""
    ensures var added := MarkReleased(pending, release);
            (forall i :: 0 <= i < |added| ==> HistoricalOk(added[i])) <==> forall p :: p in pending ==>
                p.content.strict && p.id != ""
  {
    var added := MarkReleased(pending, release);
    if forall i :: 0 <= i < |added| ==> HistoricalOk(added[i]) {
      forall p | p in pending ensures p.content.strict && p.id != "" {
        var i :| 0 <= i < |pending| && pending[i] == p;
        assert HistoricalOk(added[i]);
      }
    }
    if forall p :: p in pending ==> p.content.strict && p.id != "" {
      forall i | 0 <= i < |added| ensures HistoricalOk(added[i]) {
        assert pending[i] in pending;
      }
    }
  }

  lemma {:induction false} PriorIds(rows: seq<Event>, release: string, prior: set<string>)
    requires prior == set h | h in rows && h.release == Some(release) :: h.id
    ensures prior != {} <==> InRelease(rows, release)
  {
    if h :| h in rows && h.release == Some(release) {
      assert h.id in prior;
    }
  }

  lemma {:induction false} NamesLeft(left: seq<string>)
    requires left != []
    ensures Names(left) != {}
  {
    assert left[0] in Names(left);
  }

  /** The retained events contradict no baseline row. */
  ghost predicate RetainedAgree(s: State) {
    forall name :: name in s.legacy && s.legacy[name].Holding? ==> AgreesWithBaseline(s, s.legacy[name].event)
  }

  /** `released` is the history by id. */
  ghost predicate ReleasedIs(history: seq<Event>, released: map<string, Event>) {
    && (forall id :: id in released <==> HasId(history, id))
    && (forall i :: 0 <= i < |history| ==>
          history[i].id in released && SameRelease(released[history[i].id], history[i]))
  }

  /** This retained file is unreadable or holds an event that is refused. */
  ghost predicate LeftAlone(s: State, name: string)
    requires name in s.legacy
  {
    s.legacy[name].Unreadable? || !Migratable(s, s.legacy[name].event)
  }

  /** Every retained file that is still there had to be left. */
  ghost predicate NoneMigratable(s: State) {
    forall name :: name in s.legacy ==> LeftAlone(s, name)
  }

  /** What is refused stays refused: event files are never changed or removed. */
  lemma {:induction false} StaysLeft(s: State, t: State, names: seq<string>)
    requires t.history == s.history && forall id :: id in s.files ==> id in t.files && t.files[id] == s.files[id]
    requires forall name :: name in Names(names) ==> name in s.legacy && LeftAlone(s, name)
    requires forall name :: name in Names(names) ==> name in t.legacy && t.legacy[name] == s.legacy[name]
    ensures forall name :: name in Names(names) ==> LeftAlone(t, name)
  {
  }

  /** A retained event is accepted: valid, and in conflict with nothing released or recorded. */
  ghost predicate Migratable(s: State, e: Event) {
    && CurrentOk(e) && AgreesWithHistory(s, e)
    && (HasId(s.history, e.id) || (e.id in s.files ==> IdentityOf(s.files[e.id]) == IdentityOf(e)))
  }

  method KeepUnreleased(events: seq<Event>, released: map<string, Event>, ghost history: seq<Event>)
    returns (r: Result<seq<Event>, string>)
    requires forall id :: id in released <==> HasId(history, id)
    ensures r.Ok? <==> forall i :: 0 <= i < |events| && events[i].id in released ==>
              IdentityOf(released[events[i].id]) == IdentityOf(events[i])
    ensures r.Ok? ==> r.value == NotReleased(events, history)
  {
    var pending: seq<Event> := [];
    for i := 0 to |events|
      invariant pending + NotReleased(events[i..], history) == NotReleased(events, history)
      invariant forall k :: 0 <= k < i && events[k].id in released ==>
                IdentityOf(released[events[k].id]) == IdentityOf(events[k])
    {
      var e := events[i];
      assert events[i..][1..] == events[i + 1..];
      if e.id in released {
        if IdentityOf(released[e.id]) != IdentityOf(e) { return Err("CON-ARCHIVE-003"); }
      } else {
        assert pending + NotReleased(events[i..], history) == pending + [e] + NotReleased(events[i + 1..], history);
        pending := pending + [e];
      }
    }
    return Ok(pending);
  }

  ghost function Names(names: seq<string>): set<string> {
    set n | n in names
  }

  /** The retained names are those left in place and those still to come. */
  ghost predicate SplitNames(all: set<string>, left: seq<string>, todo: seq<string>) {
    all == Names(left) + Names(todo) && Names(left) !! Names(todo)
  }

  lemma {:induction false} NextName(all: set<string>, left: seq<string>, names: seq<string>, i: nat)
    requires i < |names| && (forall i, j :: 0 <= i < j < |names| ==> names[i] != names[j]) &&
              SplitNames(all, left, names[i..])
    ensures names[i] in all
    ensures SplitNames(all, left + [names[i]], names[i + 1..]) && SplitNames(all - {names[i]}, left, names[i + 1..])
  {
    assert names[i..] == [names[i]] + names[i + 1..];
    assert Names(names[i..]) == {names[i]} + Names(names[i + 1..]);
    assert names[i] !in Names(names[i + 1..]);
    assert Names(left + [names[i]]) == Names(left) + {names[i]};
  }

  /** Retained files are unchanged or gone, and gone only when their event is held elsewhere. */
  ghost predicate MigratedFrom(s: State, t: State) {
    && t.history == s.history && t.baseline == s.baseline
    && (forall name :: name in t.legacy ==> name in s.legacy && t.legacy[name] == s.legacy[name])
    && (forall name :: name in s.legacy && name !in t.legacy ==>
          s.legacy[name].Holding? && HeldElsewhere(t, s.legacy[name].event))
  }

  lemma {:induction false} SameMigration(s: State, t: State, u: State)
    requires MigratedFrom(s, t) && u.history == t.history && u.baseline == t.baseline && u.files == t.files &&
              u.legacy == t.legacy
    ensures MigratedFrom(s, u)
  {
    forall name | name in s.legacy && name !in u.legacy
        ensures s.legacy[name].Holding? && HeldElsewhere(u, s.legacy[name].event) {
      HeldStaysAcross(t, u, s.legacy[name].event);
    }
  }

  lemma {:induction false} MigratedNext(s: State, before: State, t: State)
    requires MigratedFrom(s, before) && t.history == before.history && t.baseline == before.baseline
    requires forall id :: id in before.files ==> id in t.files && t.files[id] == before.files[id]
    requires forall name :: name in t.legacy ==> name in before.legacy && t.legacy[name] == before.legacy[name]
    requires forall name :: name in before.legacy && name !in t.legacy ==>
               before.legacy[name].Holding? && HeldElsewhere(t, before.legacy[name].event)
    ensures MigratedFrom(s, t)
  {
    forall name | name in s.legacy && name !in t.legacy
        ensures s.legacy[name].Holding? && HeldElsewhere(t, s.legacy[name].event) {
      if name !in before.legacy {
        HeldStaysAcross(before, t, s.legacy[name].event);
      }
    }
  }

  lemma {:induction false} HistoryAgreement(s: State, released: map<string, Event>, e: Event)
    requires ReleasedIs(s.history, released)
    ensures AgreesWithHistory(s, e) <==> (e.id in released ==> IdentityOf(released[e.id]) == IdentityOf(e))
  {
    if e.id in released {
      var i :| 0 <= i < |s.history| && s.history[i].id == e.id;
      assert s.history[i] in s.history;
      forall h | h in s.history && h.id == e.id ensures IdentityOf(h) == IdentityOf(released[e.id]) {
        var k :| 0 <= k < |s.history| && s.history[k] == h;
      }
    } else {
      forall h | h in s.history ensures h.id != e.id {
        var k :| 0 <= k < |s.history| && s.history[k] == h;
      }
    }
  }

  /** With one more event file, the sources can be merged iff the baseline agrees with it. */
  lemma {:induction false} RecordedBesideBaseline(s: State, t: State, e: Event)
    requires LedgerInv(s) && t.baseline == s.baseline && e.id in t.files && IdentityOf(t.files[e.id]) == IdentityOf(e)
    requires t.files == s.files[e.id := t.files[e.id]]
    ensures FilesOk(t.files) && (Consistent(Sources(t.baseline, t.files)) <==> AgreesWithBaseline(s, e))
  {
    var all, f := Sources(t.baseline, t.files), t.files[e.id];
    assert FilesOk(t.files);
    SourcesHold(t, f);
    if AgreesWithBaseline(s, e) {
      forall i, j | 0 <= i < j < |all| && all[i].id == all[j].id ensures IdentityOf(all[i]) == IdentityOf(all[j]) {
        SourcesHold(t, all[i]);
        SourcesHold(t, all[j]);
        assert all[i] != f ==> Known(s, all[i]) && Agree(all[i], f);
        assert all[j] != f ==> Known(s, all[j]) && Agree(all[j], f);
      }
    } else {
      var b :| b in s.baseline && !Agree(b, e);
      SourcesHold(t, b);
      var i :| 0 <= i < |all| && all[i] == b;
      var j :| 0 <= j < |all| && all[j] == f;
    }
  }

  lemma {:induction false} HeldStaysAcross(s: State, t: State, e: Event)
    requires HeldElsewhere(s, e) && t.history == s.history
    requires forall id :: id in s.files ==> id in t.files && t.files[id] == s.files[id]
    ensures HeldElsewhere(t, e)
  {
  }

  /** The sources can be merged, the history can be read, and no loaded event contradicts the history. */
  ghost predicate Loadable(s: State)
    requires FilesOk(s.files)
  {
    && Consistent(Sources(s.baseline, s.files)) && HistoryConsistent(s.history)
    && forall e :: e in FirstOfEach(Sources(s.baseline, s.files)) ==> AgreesWithHistory(s, e)
  }

  /** A consistent ledger can be loaded. */
  lemma {:induction false} InvIsLoadable(s: State)
    requires LedgerInv(s)
    ensures Loadable(s)
  {
    var all := Sources(s.baseline, s.files);
    SourcesConsistent(s);
    FirstOfEachIds(all);
    forall e | e in FirstOfEach(all) ensures AgreesWithHistory(s, e) {
      var i :| 0 <= i < |FirstOfEach(all)| && FirstOfEach(all)[i] == e;
      var k :| 0 <= k < |all| && all[k] == FirstOfEach(all)[i];
      SourcesHold(s, e);
      assert Known(s, e);
      assert forall h :: h in s.history ==> Known(s, h);
    }
  }

  lemma {:induction false} AgreeById(s: State, events: seq<Event>, released: map<string, Event>)
    requires ReleasedIs(s.history, released)
    ensures (forall e :: e in events ==> AgreesWithHistory(s, e)) <==>
            forall i :: 0 <= i < |events| && events[i].id in released ==>
              IdentityOf(released[events[i].id]) == IdentityOf(events[i])
  {
    forall i | 0 <= i < |events|
      ensures AgreesWithHistory(s, events[i]) <==>
              (events[i].id in released ==> IdentityOf(released[events[i].id]) == IdentityOf(events[i])) {
      HistoryAgreement(s, released, events[i]);
    }
    if forall e :: e in events ==> AgreesWithHistory(s, e) {
      assert forall i :: 0 <= i < |events| ==> events[i] in events;
    }
  }

  lemma {:induction false} PendingHaveIds(s: State)
    requires LedgerInv(s)
    ensures forall p :: p in Pending(s) ==> p.id != ""
  {
    PendingIsRecorded(s);
  }
}
